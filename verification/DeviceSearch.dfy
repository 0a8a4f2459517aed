/** The device search: which MAC addresses answer E_SerchDevice (main/protocol.c:373-404). */
module DeviceSearch {
  const MAC_BITS := 48

  function Pow2(n: nat): (p: nat)
    ensures p > 0
  {
    if n == 0 then 1 else 2 * Pow2(n - 1)
  }

  // A device answers (index, value) when the low index + 1 bits of its MAC are value; masking
  // with 2^(index + 1) - 1 is the remainder modulo 2^(index + 1).
  predicate Answers(mac: nat, index: nat, value: nat) {
    mac % Pow2(index + 1) == value
  }

  lemma RemainderSplit(mac: nat, p: nat)
    requires p > 0
    ensures mac % (2 * p) == mac % p || mac % (2 * p) == mac % p + p
  {
    var q, r := mac / (2 * p), mac % (2 * p);
    assert mac == 2 * p * q + r;
    if r < p {
      RemainderIs(mac, p, 2 * q, r);
    } else {
      assert mac == p * (2 * q + 1) + (r - p);
      RemainderIs(mac, p, 2 * q + 1, r - p);
    }
  }

  lemma RemainderIs(x: int, p: int, q: int, r: int)
    requires 0 <= r < p && x == p * q + r
    ensures x % p == r
  {
    var d: int := x / p - q;
    assert p * d == r - x % p;
    assert d >= 1 ==> p * d >= p;
    assert d <= -1 ==> p * d <= -p;
  }

  // One more bit splits the devices that answer into two disjoint halves.
  lemma OneMoreBit(mac: nat, index: nat, value: nat)
    requires value < Pow2(index + 1)
    ensures Answers(mac, index, value) <==>
            Answers(mac, index + 1, value) || Answers(mac, index + 1, value + Pow2(index + 1))
    ensures !(Answers(mac, index + 1, value) && Answers(mac, index + 1, value + Pow2(index + 1)))
  {
    hide Pow2;
    var p := Pow2(index + 1);
    assert Pow2(index + 2) == 2 * p by { Doubling(index + 1); }
    RemainderSplit(mac, p);
  }

  lemma Doubling(n: nat)
    ensures Pow2(n + 1) == 2 * Pow2(n)
  {}

  predicate IsMac(mac: nat) {
    mac < Pow2(MAC_BITS)
  }

  // At the last index only the device with exactly that MAC answers.
  lemma LastBitIdentifies(mac: nat, value: nat)
    requires IsMac(mac)
    ensures Answers(mac, MAC_BITS - 1, value) <==> mac == value
  {
    hide Pow2;
    RemainderIs(mac, Pow2(MAC_BITS), 0, mac);
  }

  // A value with a bit above the index is answered by nobody.
  lemma NobodyAnswers(mac: nat, index: nat, value: nat)
    requires value >= Pow2(index + 1)
    ensures !Answers(mac, index, value)
  {}

  ghost predicate Somebody(devices: set<nat>, index: nat, value: nat) {
    exists mac :: mac in devices && Answers(mac, index, value)
  }

  // The walk the queries allow: follow (index, value) only while some device answers.
  ghost function Discover(devices: set<nat>, index: nat, value: nat): set<nat>
    requires index < MAC_BITS
    decreases MAC_BITS - index
  {
    if !Somebody(devices, index, value) then {}
    else if index == MAC_BITS - 1 then {value}
    else Discover(devices, index + 1, value) + Discover(devices, index + 1, value + Pow2(index + 1))
  }

  lemma DiscoverStep(devices: set<nat>, index: nat, value: nat)
    requires index < MAC_BITS
    ensures !Somebody(devices, index, value) ==> Discover(devices, index, value) == {}
    ensures Somebody(devices, index, value) && index == MAC_BITS - 1 ==> Discover(devices, index, value) == {value}
    ensures Somebody(devices, index, value) && index < MAC_BITS - 1 ==>
              Discover(devices, index, value)
              == Discover(devices, index + 1, value) + Discover(devices, index + 1, value + Pow2(index + 1))
  {
    hide Answers, Pow2;
  }

  // It finds exactly the devices below (index, value), each in one half only.
  lemma {:induction false} DiscoverFinds(devices: set<nat>, index: nat, value: nat)
    requires index < MAC_BITS && value < Pow2(index + 1)
    requires forall mac :: mac in devices ==> IsMac(mac)
    ensures forall mac :: mac in Discover(devices, index, value) <==> mac in devices && Answers(mac, index, value)
    decreases MAC_BITS - index
  {
    hide Answers, Pow2, IsMac, Discover;
    DiscoverStep(devices, index, value);
    if Somebody(devices, index, value) {
      if index == MAC_BITS - 1 {
        forall mac | mac in devices
          ensures Answers(mac, index, value) <==> mac == value
        {
          LastBitIdentifies(mac, value);
        }
      } else {
        Doubling(index + 1);
        DiscoverFinds(devices, index + 1, value);
        DiscoverFinds(devices, index + 1, value + Pow2(index + 1));
        forall mac | mac in devices
          ensures Answers(mac, index, value) <==>
                  Answers(mac, index + 1, value) || Answers(mac, index + 1, value + Pow2(index + 1))
        {
          OneMoreBit(mac, index, value);
        }
      }
    }
  }

  // The two walks from the first bit find every device, and no device twice.
  lemma SearchComplete(devices: set<nat>)
    requires forall mac :: mac in devices ==> IsMac(mac)
    ensures Discover(devices, 0, 0) + Discover(devices, 0, 1) == devices
    ensures Discover(devices, 0, 0) !! Discover(devices, 0, 1)
  {
    hide Discover;
    assert Pow2(1) == 2;
    DiscoverFinds(devices, 0, 0);
    DiscoverFinds(devices, 0, 1);
  }

  // No device is found on two branches of the walk.
  lemma BranchesDisjoint(devices: set<nat>, index: nat, value: nat)
    requires index + 1 < MAC_BITS && value < Pow2(index + 1)
    requires forall mac :: mac in devices ==> IsMac(mac)
    ensures Discover(devices, index + 1, value) !! Discover(devices, index + 1, value + Pow2(index + 1))
  {
    hide Discover, Answers, Pow2, IsMac;
    Doubling(index + 1);
    DiscoverFinds(devices, index + 1, value);
    DiscoverFinds(devices, index + 1, value + Pow2(index + 1));
    forall mac | mac in devices
      ensures !(Answers(mac, index + 1, value) && Answers(mac, index + 1, value + Pow2(index + 1)))
    {
      OneMoreBit(mac, index, value);
    }
  }
}
