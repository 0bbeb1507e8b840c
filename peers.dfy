/// The fixed member list of src/main.cpp and the two loops over it,
/// `setupPeers` and `sendUpdateToPeers`: both address every member except the
/// node itself, in list order.
module Peers {

  /** A 6-byte station address; equality is `memcmp(...) == 0`. */
  type Mac = seq<int>

  /** The radio role of a node or of a registered peer. */
  datatype Role = Slave | Controller

  /** One `esp_now_add_peer` registration. */
  datatype PeerEntry = PeerEntry(addr: Mac, role: Role)

  /** One `esp_now_send` of the mode record. */
  datatype Packet = Packet(to: Mac, mode: int)

  /** `network_members`. */
  const NetworkMembers: seq<Mac> := [
    [0x5C, 0xCF, 0x7F, 0xAC, 0xBD, 0xFC],
    [0x98, 0xF4, 0xAB, 0xDA, 0xB3, 0x70],
    [0xEC, 0xFA, 0xBC, 0xC0, 0x9C, 0x35],
    [0x98, 0xF4, 0xAB, 0xDA, 0xB8, 0x26],
    [0x30, 0xAE, 0xA4, 0x8D, 0xE7, 0x2C],
    [0x30, 0xAE, 0xA4, 0x8D, 0xE7, 0x2D]
  ]

  /** The members other than `self`, in list order. Defined from the end of
      the list, the way the loops extend their effects. */
  function Others(members: seq<Mac>, self: Mac): (r: seq<Mac>)
    ensures |r| <= |members|
  {
    if members == [] then []
    else
      var last := members[|members| - 1];
      Others(members[..|members| - 1], self) + (if last == self then [] else [last])
  }

  /** The registrations `setupPeers(role)` makes for a list of addresses. */
  function Registrations(addrs: seq<Mac>, role: Role): (r: seq<PeerEntry>)
    ensures |r| == |addrs|
  {
    if addrs == [] then []
    else Registrations(addrs[..|addrs| - 1], role) + [PeerEntry(addrs[|addrs| - 1], role)]
  }

  /** The packets `sendUpdateToPeers` sends to a list of addresses. */
  function Sends(addrs: seq<Mac>, mode: int): (r: seq<Packet>)
    ensures |r| == |addrs|
  {
    if addrs == [] then []
    else Sends(addrs[..|addrs| - 1], mode) + [Packet(addrs[|addrs| - 1], mode)]
  }

  /** One more member extends the filtered list by that member, unless it is
      self. */
  lemma OthersStep(members: seq<Mac>, self: Mac, i: int)
    requires 0 <= i < |members|
    ensures Others(members[..i + 1], self)
         == Others(members[..i], self) + (if members[i] == self then [] else [members[i]])
  {
    assert members[..i + 1][..i] == members[..i];
  }

  lemma RegistrationsSnoc(addrs: seq<Mac>, x: Mac, role: Role)
    ensures Registrations(addrs + [x], role) == Registrations(addrs, role) + [PeerEntry(x, role)]
  {
    assert (addrs + [x])[..|addrs|] == addrs;
  }

  lemma SendsSnoc(addrs: seq<Mac>, x: Mac, mode: int)
    ensures Sends(addrs + [x], mode) == Sends(addrs, mode) + [Packet(x, mode)]
  {
    assert (addrs + [x])[..|addrs|] == addrs;
  }

  /** An address is addressed exactly when it is a member other than self. */
  lemma {:induction false} OthersMembers(members: seq<Mac>, self: Mac, x: Mac)
    ensures x in Others(members, self) <==> x in members && x != self
  {
    if members != [] {
      var init := members[..|members| - 1];
      OthersMembers(init, self, x);
      assert members == init + [members[|members| - 1]];
    }
  }

  /** Filtering distributes over concatenation, so the loop's order is the
      list's order. */
  lemma {:induction false} OthersAppend(a: seq<Mac>, b: seq<Mac>, self: Mac)
    ensures Others(a + b, self) == Others(a, self) + Others(b, self)
  {
    if b == [] {
      assert a + b == a;
    } else {
      var init := b[..|b| - 1];
      OthersAppend(a, init, self);
      assert (a + b)[..|a + b| - 1] == a + init;
      assert (a + b)[|a + b| - 1] == b[|b| - 1];
    }
  }

  /** The number of times `x` occurs in `s`. */
  function Count(s: seq<Mac>, x: Mac): nat
  {
    if s == [] then 0
    else Count(s[..|s| - 1], x) + (if s[|s| - 1] == x then 1 else 0)
  }

  /** Exactly the occurrences of self are dropped; on a list holding self
      once, every other member is addressed. */
  lemma {:induction false} OthersLength(members: seq<Mac>, self: Mac)
    ensures |Others(members, self)| == |members| - Count(members, self)
  {
    if members != [] {
      OthersLength(members[..|members| - 1], self);
    }
  }

  /** Each registration carries the role and the i-th address. */
  lemma {:induction false} RegistrationsAt(addrs: seq<Mac>, role: Role, i: int)
    requires 0 <= i < |addrs|
    ensures Registrations(addrs, role)[i] == PeerEntry(addrs[i], role)
  {
    if i < |addrs| - 1 {
      RegistrationsAt(addrs[..|addrs| - 1], role, i);
    }
  }

  /** Each packet carries the mode and goes to the i-th address. */
  lemma {:induction false} SendsAt(addrs: seq<Mac>, mode: int, i: int)
    requires 0 <= i < |addrs|
    ensures Sends(addrs, mode)[i] == Packet(addrs[i], mode)
  {
    if i < |addrs| - 1 {
      SendsAt(addrs[..|addrs| - 1], mode, i);
    }
  }

  predicate Distinct(s: seq<Mac>)
  {
    forall j, k :: 0 <= j < k < |s| ==> s[j] != s[k]
  }

  /** In a list without repetitions a member occurs once. */
  lemma {:induction false} CountDistinct(s: seq<Mac>, x: Mac)
    requires Distinct(s)
    ensures Count(s, x) == if x in s then 1 else 0
  {
    if s != [] {
      var init := s[..|s| - 1];
      CountDistinct(init, x);
      assert s == init + [s[|s| - 1]];
      assert s[|s| - 1] == x ==> x !in init;
    }
  }

  /** Every installed node appears once in the list, so it talks to the five
      others. */
  lemma MembersTalkToFiveOthers(i: int)
    requires 0 <= i < |NetworkMembers|
    ensures Count(NetworkMembers, NetworkMembers[i]) == 1
    ensures |Others(NetworkMembers, NetworkMembers[i])| == 5
  {
    var m := NetworkMembers;
    assert Distinct(m);
    CountDistinct(m, m[i]);
    OthersLength(m, m[i]);
  }
}
