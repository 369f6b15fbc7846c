/** The group member cache (group.go): joins appended and leaves swap-removed in the cached member list. */
module GroupCache {
  import opened Bytes
  import opened Jid

  datatype Change = Change(group: JID, join: seq<JID>, leave: seq<JID>)

  /** The members as a multiset: a join adds one who is not there, a leave takes one copy away. */
  function Joined(m: multiset<JID>, join: seq<JID>): multiset<JID>
    decreases |join|
  {
    if join == [] then m else
      var before := Joined(m, join[..|join| - 1]);
      var j := join[|join| - 1];
      if j in before then before else before + multiset{j}
  }

  function Left(m: multiset<JID>, leave: seq<JID>): multiset<JID>
    decreases |leave|
  {
    if leave == [] then m else Left(m, leave[..|leave| - 1]) - multiset{leave[|leave| - 1]}
  }

  function Changed(m: multiset<JID>, c: Change): multiset<JID>
  {
    Left(Joined(m, c.join), c.leave)
  }

  datatype Participant = Participant(jid: JID, phoneNumber: JID, lid: JID, displayName: Bytes)

  datatype GroupInfo = GroupInfo(jid: JID, addressingMode: Bytes, isAnnounce: bool, isDefaultSubGroup: bool,
                                 participants: seq<Participant>)

  datatype GroupMeta = GroupMeta(addressingMode: Bytes, communityAnnouncementGroup: bool, members: seq<JID>)

  datatype LIDMapping = LIDMapping(lid: JID, pn: JID)

  datatype RedactedPhone = RedactedPhone(jid: JID, phone: Bytes)

  /** An identifier without a server counts as empty. */
  predicate IsEmpty(j: JID)
  {
    j.server == []
  }

  const NO_MAPPING := LIDMapping(NewJID([], []), NewJID([], []))

  function MappingOf(p: Participant): LIDMapping
  {
    if !IsEmpty(p.phoneNumber) && !IsEmpty(p.lid) then LIDMapping(p.lid, p.phoneNumber) else NO_MAPPING
  }

  function RedactedOf(ps: seq<Participant>): seq<RedactedPhone>
  {
    if ps == [] then [] else
      var p := ps[|ps| - 1];
      RedactedOf(ps[..|ps| - 1])
        + if p.displayName != [] && !IsEmpty(p.lid) then [RedactedPhone(p.lid, p.displayName)] else []
  }

  class Client {
    var groupCache: map<JID, GroupMeta>

    constructor ()
      ensures groupCache == map[]
    {
      groupCache := map[];
    }

    /** Members in order, one mapping slot for each of them, and the redacted phone numbers. */
    method CacheGroupInfo(info: GroupInfo) returns (lidPairs: seq<LIDMapping>, redacted: seq<RedactedPhone>)
      modifies this
      ensures info.jid in groupCache && groupCache - {info.jid} == old(groupCache) - {info.jid}
      ensures var meta := groupCache[info.jid];
              && meta.addressingMode == info.addressingMode
              && (meta.communityAnnouncementGroup <==> info.isAnnounce && info.isDefaultSubGroup)
              && |meta.members| == |info.participants| == |lidPairs|
              && forall i :: 0 <= i < |lidPairs| ==>
                   meta.members[i] == info.participants[i].jid && lidPairs[i] == MappingOf(info.participants[i])
      ensures redacted == RedactedOf(info.participants)
    {
      var participants: seq<JID> := [];
      lidPairs, redacted := [], [];
      for i := 0 to |info.participants|
        invariant |participants| == |lidPairs| == i && groupCache == old(groupCache)
        invariant forall k :: 0 <= k < i ==>
            participants[k] == info.participants[k].jid && lidPairs[k] == MappingOf(info.participants[k])
        invariant redacted == RedactedOf(info.participants[..i])
      {
        var part := info.participants[i];
        assert info.participants[..i + 1][..i] == info.participants[..i];
        participants := participants + [part.jid];
        if !IsEmpty(part.phoneNumber) && !IsEmpty(part.lid) {
          lidPairs := lidPairs + [LIDMapping(part.lid, part.phoneNumber)];
        } else {
          lidPairs := lidPairs + [NO_MAPPING];
        }
        if part.displayName != [] && !IsEmpty(part.lid) {
          redacted := redacted + [RedactedPhone(part.lid, part.displayName)];
        }
      }
      assert info.participants[..|info.participants|] == info.participants;
      groupCache :=
        groupCache[info.jid := GroupMeta(info.addressingMode, info.isAnnounce && info.isDefaultSubGroup, participants)];
    }

    /** Every other group stays as it is; an unknown one stays unknown. */
    method UpdateGroupParticipantCache(evt: Change)
      modifies this
      ensures groupCache.Keys == old(groupCache).Keys
      ensures forall g :: g in groupCache && g != evt.group ==> groupCache[g] == old(groupCache)[g]
      ensures evt.group in groupCache ==>
                var before, after := old(groupCache)[evt.group], groupCache[evt.group];
                && multiset(after.members) == Changed(multiset(before.members), evt)
                && after == before.(members := after.members)
    {
      if |evt.join| == 0 && |evt.leave| == 0 {
        return;
      }
      if evt.group !in groupCache {
        return;
      }
      var cached := groupCache[evt.group];
      var members := JoinAll(cached.members, evt.join);
      members := LeaveAll(members, evt.leave);
      groupCache := groupCache[evt.group := cached.(members := members)];
    }
  }

  /** Appends one who is not there yet. */
  method JoinOne(members: seq<JID>, jid: JID) returns (r: seq<JID>)
    ensures r == if jid in members then members else members + [jid]
    ensures multiset(r) == if jid in multiset(members) then multiset(members) else multiset(members) + multiset{jid}
  {
    for i := 0 to |members|
      invariant forall j :: 0 <= j < i ==> members[j] != jid
    {
      if members[i] == jid {
        return members;
      }
    }
    r := members + [jid];
  }

  method JoinAll(start: seq<JID>, join: seq<JID>) returns (members: seq<JID>)
    ensures multiset(members) == Joined(multiset(start), join)
  {
    members := start;
    for k := 0 to |join|
      invariant multiset(members) == Joined(multiset(start), join[..k])
    {
      assert join[..k + 1][..k] == join[..k];
      members := JoinOne(members, join[k]);
    }
    assert join[..|join|] == join;
  }

  /** Overwrites the first occurrence with the last member and shortens the list. */
  method LeaveOne(members: seq<JID>, jid: JID) returns (r: seq<JID>)
    ensures jid !in members ==> r == members
    ensures multiset(r) == multiset(members) - multiset{jid}
  {
    for i := 0 to |members|
      invariant forall j :: 0 <= j < i ==> members[j] != jid
    {
      if members[i] == jid {
        SwapRemove(members, i);
        return members[i := members[|members| - 1]][..|members| - 1];
      }
    }
    assert jid !in multiset(members);
    r := members;
  }

  method LeaveAll(start: seq<JID>, leave: seq<JID>) returns (members: seq<JID>)
    ensures multiset(members) == Left(multiset(start), leave)
  {
    members := start;
    for k := 0 to |leave|
      invariant multiset(members) == Left(multiset(start), leave[..k])
    {
      assert leave[..k + 1][..k] == leave[..k];
      members := LeaveOne(members, leave[k]);
    }
    assert leave[..|leave|] == leave;
  }

  lemma SwapRemove(s: seq<JID>, i: nat)
    requires i < |s|
    ensures multiset(s[i := s[|s| - 1]][..|s| - 1]) == multiset(s) - multiset{s[i]}
  {
    var n := |s| - 1;
    assert s[..n] + [s[n]] == s;
    if i < n {
      assert s[i := s[n]][..n] == s[..n][i := s[n]];
    } else {
      assert s[i := s[n]][..n] == s[..n];
    }
  }

  /* ---------- What a change means ---------- */

  lemma {:induction false} JoinedCount(m: multiset<JID>, join: seq<JID>, x: JID)
    ensures Joined(m, join)[x] == if m[x] == 0 && x in join then 1 else m[x]
    decreases |join|
  {
    if join != [] {
      var front := join[..|join| - 1];
      JoinedCount(m, front, x);
      assert x in join <==> x in front || x == join[|join| - 1];
    }
  }

  lemma {:induction false} LeftCount(m: multiset<JID>, leave: seq<JID>, x: JID)
    ensures Left(m, leave)[x] == if m[x] <= multiset(leave)[x] then 0 else m[x] - multiset(leave)[x]
    decreases |leave|
  {
    if leave != [] {
      var front := leave[..|leave| - 1];
      LeftCount(m, front, x);
      assert leave == front + [leave[|leave| - 1]];
    }
  }

  /** Membership afterwards is (members or joined) and not left, for every identifier. */
  ghost predicate SetLaw(m: multiset<JID>, c: Change)
  {
    forall x :: x in Changed(m, c) <==> (x in m || x in c.join) && x !in c.leave
  }

  /** For any list, duplicates or not, the set law holds exactly if no one who leaves has more copies than leaves. */
  lemma SetLawIff(m: multiset<JID>, c: Change)
    ensures SetLaw(m, c) <==> forall x :: x in c.leave ==> m[x] <= multiset(c.leave)[x]
  {
    forall x ensures x in Changed(m, c) <==>
                       (x in m || x in c.join) && (x !in c.leave || m[x] > multiset(c.leave)[x]) {
      ChangedHas(m, c, x);
    }
    if x :| x in c.leave && m[x] > multiset(c.leave)[x] {
      assert x in m && x in Changed(m, c);
    }
  }

  lemma ChangedHas(m: multiset<JID>, c: Change, x: JID)
    ensures x in Changed(m, c) <==> (x in m || x in c.join) && (x !in c.leave || m[x] > multiset(c.leave)[x])
  {
    hide Joined, Left;
    JoinedCount(m, c.join, x);
    LeftCount(Joined(m, c.join), c.leave, x);
    assert x in c.leave <==> multiset(c.leave)[x] > 0;
  }

  ghost predicate NoDuplicates(m: multiset<JID>)
  {
    forall x :: m[x] <= 1
  }

  function AfterAll(m: multiset<JID>, changes: seq<Change>): multiset<JID>
    decreases |changes|
  {
    if changes == [] then m else AfterAll(Changed(m, changes[0]), changes[1..])
  }

  function FoldSet(members: set<JID>, changes: seq<Change>): set<JID>
    decreases |changes|
  {
    if changes == [] then members else
      FoldSet(members + (set x | x in changes[0].join) - (set x | x in changes[0].leave), changes[1..])
  }

  lemma ChangeKeepsDistinct(m: multiset<JID>, c: Change)
    requires NoDuplicates(m)
    ensures NoDuplicates(Changed(m, c)) && SetLaw(m, c)
  {
    hide Joined, Left;
    forall x ensures Changed(m, c)[x] <= 1 {
      JoinedCount(m, c.join, x);
      LeftCount(Joined(m, c.join), c.leave, x);
    }
    forall x | x in c.leave ensures m[x] <= multiset(c.leave)[x] {
      assert multiset(c.leave)[x] > 0;
    }
    SetLawIff(m, c);
  }

  /** From a list without duplicates, after any changes there are none, and the members are the folded set. */
  lemma {:induction false} EveryRunIsTheSet(m: multiset<JID>, changes: seq<Change>)
    requires NoDuplicates(m)
    ensures NoDuplicates(AfterAll(m, changes))
    ensures (set x | x in AfterAll(m, changes)) == FoldSet((set x | x in m), changes)
    decreases |changes|
  {
    hide NoDuplicates, Changed;
    if changes != [] {
      var c := changes[0];
      ChangeKeepsDistinct(m, c);
      EveryRunIsTheSet(Changed(m, c), changes[1..]);
      assert (set x | x in Changed(m, c)) == (set x | x in m) + (set x | x in c.join) - (set x | x in c.leave);
    }
  }

  /** The redacted phones are those of the participants who have a display name and a LID, each under that LID. */
  lemma {:induction false} RedactedAre(ps: seq<Participant>, x: RedactedPhone)
    ensures x in RedactedOf(ps) <==>
            exists i :: 0 <= i < |ps| && ps[i].displayName != [] && ps[i].lid.server != []
                        && x.jid == ps[i].lid && x.phone == ps[i].displayName
  {
    if ps != [] {
      var n := |ps| - 1;
      RedactedAre(ps[..n], x);
      assert forall i :: 0 <= i < n ==> ps[..n][i] == ps[i];
    }
  }

  /** A mapping slot holds the LID and the phone number of a participant who has both, and is empty otherwise. */
  lemma MappingIs(p: Participant)
    ensures p.phoneNumber.server != [] && p.lid.server != [] ==>
              MappingOf(p).lid == p.lid && MappingOf(p).pn == p.phoneNumber
    ensures p.phoneNumber.server == [] || p.lid.server == [] ==>
              IsEmpty(MappingOf(p).lid) && IsEmpty(MappingOf(p).pn)
  {
  }
}
