/** virtio/fs.rs: the access-control decision. */
module Acl {
  import opened Words

  datatype Permission = READ | WRITE | EXECUTE | DELETE

  const ALL: set<Permission> := {READ, WRITE, EXECUTE, DELETE}

  datatype AclEntry = AclEntry(uid: U32, gid: U32, permissions: set<Permission>)

  datatype Acl = Acl(owner: U32, group: U32, entries: seq<AclEntry>)

  /** The first entry for a user (`find`). */
  function FirstFor(entries: seq<AclEntry>, uid: U32): Option<AclEntry> {
    if entries == [] then None
    else if entries[0].uid == uid then Some(entries[0])
    else FirstFor(entries[1..], uid)
  }

  /** Some selected entry holds all that is required (`filter`, `any`). */
  predicate SomeGrants(entries: seq<AclEntry>, selects: AclEntry -> bool, required: set<Permission>) {
    entries != [] &&
    ((selects(entries[0]) && required <= entries[0].permissions) || SomeGrants(entries[1..], selects, required))
  }

  predicate CheckPermission(acl: Acl, uid: U32, gid: U32, required: set<Permission>) {
    if acl.owner == uid then
      var e := FirstFor(acl.entries, uid);
      if e.Some? then required <= e.value.permissions else required == {} || required == ALL
    else if acl.group == gid then
      SomeGrants(acl.entries, (e: AclEntry) => e.gid == gid, required)
    else
      SomeGrants(acl.entries, (e: AclEntry) => e.uid == uid || e.gid == gid, required)
  }

  // ----- The owner -----

  /** For the owner the first entry with their uid decides; without one only nothing and everything is granted. */
  lemma {:induction false} OwnerExactly(acl: Acl, gid: U32, required: set<Permission>, k: nat)
    requires forall j :: 0 <= j < k && j < |acl.entries| ==> acl.entries[j].uid != acl.owner
    ensures k < |acl.entries| && acl.entries[k].uid == acl.owner ==>
              (CheckPermission(acl, acl.owner, gid, required) <==> required <= acl.entries[k].permissions)
    ensures k >= |acl.entries| ==>
              (CheckPermission(acl, acl.owner, gid, required)
               <==> required == {} || required == {READ, WRITE, EXECUTE, DELETE})
  {
    FirstIsFirst(acl.entries, acl.owner, k);
  }

  lemma {:induction false} FirstIsFirst(entries: seq<AclEntry>, uid: U32, k: nat)
    requires forall j :: 0 <= j < k && j < |entries| ==> entries[j].uid != uid
    ensures k < |entries| && entries[k].uid == uid ==> FirstFor(entries, uid) == Some(entries[k])
    ensures k >= |entries| ==> FirstFor(entries, uid) == None
  {
    if entries == [] || k == 0 {
    } else {
      FirstIsFirst(entries[1..], uid, k - 1);
    }
  }

  // ----- Users who are not the owner -----

  /** In the owning group only entries for the group speak; outside it, entries for the user and for their group do. */
  lemma OthersBySide(acl: Acl, uid: U32, gid: U32, required: set<Permission>)
    requires acl.owner != uid
    ensures acl.group == gid ==>
              (CheckPermission(acl, uid, gid, required)
               <==> exists e :: e in acl.entries && e.gid == gid && required <= e.permissions)
    ensures acl.group != gid ==>
              (CheckPermission(acl, uid, gid, required)
               <==> exists e :: e in acl.entries && (e.uid == uid || e.gid == gid) && required <= e.permissions)
  {
    OthersExactly(acl, uid, gid, required);
  }

  /** Which entries speak for a user who is not the owner: a group member's own entries do not count. */
  predicate SpeaksFor(acl: Acl, uid: U32, gid: U32, e: AclEntry) {
    e.gid == gid || (acl.group != gid && e.uid == uid)
  }

  lemma {:induction false} SomeGrantsExactly(entries: seq<AclEntry>, selects: AclEntry -> bool,
                                             required: set<Permission>)
    ensures SomeGrants(entries, selects, required)
       <==> exists e :: e in entries && selects(e) && required <= e.permissions
  {
    if entries == [] {
    } else {
      SomeGrantsExactly(entries[1..], selects, required);
      assert forall e :: e in entries <==> e == entries[0] || e in entries[1..];
    }
  }

  /** The decision for anyone but the owner, without order or recursion. */
  lemma OthersExactly(acl: Acl, uid: U32, gid: U32, required: set<Permission>)
    requires acl.owner != uid
    ensures CheckPermission(acl, uid, gid, required)
       <==> exists e :: e in acl.entries && SpeaksFor(acl, uid, gid, e) && required <= e.permissions
  {
    SomeGrantsExactly(acl.entries, (e: AclEntry) => e.gid == gid, required);
    SomeGrantsExactly(acl.entries, (e: AclEntry) => e.uid == uid || e.gid == gid, required);
  }

  /**
   For anyone but the owner the order of the entries is irrelevant, and adding entries never
   takes a permission away.
   */
  lemma MoreEntriesNeverRevoke(acl: Acl, more: Acl, uid: U32, gid: U32, required: set<Permission>)
    requires acl.owner == more.owner != uid && acl.group == more.group
    requires forall e :: e in acl.entries ==> e in more.entries
    requires CheckPermission(acl, uid, gid, required)
    ensures CheckPermission(more, uid, gid, required)
  {
    OthersExactly(acl, uid, gid, required);
    OthersExactly(more, uid, gid, required);
    var e :| e in acl.entries && SpeaksFor(acl, uid, gid, e) && required <= e.permissions;
    assert e in more.entries && SpeaksFor(more, uid, gid, e);
  }

  lemma OrderIrrelevantForOthers(acl: Acl, shuffled: seq<AclEntry>, uid: U32, gid: U32, required: set<Permission>)
    requires acl.owner != uid && multiset(acl.entries) == multiset(shuffled)
    ensures CheckPermission(acl.(entries := shuffled), uid, gid, required) == CheckPermission(acl, uid, gid, required)
  {
    forall e
      ensures e in acl.entries <==> e in shuffled
    {
      assert e in multiset(acl.entries) <==> e in multiset(shuffled);
    }
    var other := acl.(entries := shuffled);
    if CheckPermission(acl, uid, gid, required) {
      MoreEntriesNeverRevoke(acl, other, uid, gid, required);
    }
    if CheckPermission(other, uid, gid, required) {
      MoreEntriesNeverRevoke(other, acl, uid, gid, required);
    }
  }

  // ----- The owner -----

  lemma {:induction false} FirstForSome(entries: seq<AclEntry>, uid: U32)
    ensures FirstFor(entries, uid).Some? <==> exists e :: e in entries && e.uid == uid
    ensures FirstFor(entries, uid).Some? ==>
              FirstFor(entries, uid).value in entries && FirstFor(entries, uid).value.uid == uid
  {
    if entries == [] {
    } else {
      FirstForSome(entries[1..], uid);
      assert forall e :: e in entries <==> e == entries[0] || e in entries[1..];
    }
  }

  /**
   Whoever may do a set of things may do any part of it, with exactly one exception: an owner
   without an entry may do nothing or everything, but no single thing.
   */
  lemma DownwardClosedExactly(acl: Acl, uid: U32, gid: U32)
    ensures (forall large, small ::
               small <= large && CheckPermission(acl, uid, gid, large) ==> CheckPermission(acl, uid, gid, small))
       <==> !(acl.owner == uid && forall e :: e in acl.entries ==> e.uid != uid)
  {
    FirstForSome(acl.entries, uid);
    if acl.owner == uid && FirstFor(acl.entries, uid).None? {
      assert CheckPermission(acl, uid, gid, ALL) && READ in ALL;
      assert !CheckPermission(acl, uid, gid, {READ}) by {
        assert WRITE !in {READ} && WRITE in ALL;
      }
    } else if acl.owner != uid {
      forall large: set<Permission>, small: set<Permission> | small <= large && CheckPermission(acl, uid, gid, large)
        ensures CheckPermission(acl, uid, gid, small)
      {
        OthersExactly(acl, uid, gid, large);
        OthersExactly(acl, uid, gid, small);
        var e :| e in acl.entries && SpeaksFor(acl, uid, gid, e) && large <= e.permissions;
        assert small <= e.permissions;
      }
    }
  }

  /** Entries with the one at i moved to the front. */
  function MovedToFront(entries: seq<AclEntry>, i: nat): (r: seq<AclEntry>)
    requires i < |entries|
  {
    [entries[i]] + entries[..i] + entries[i + 1..]
  }

  lemma MovedIsShuffled(entries: seq<AclEntry>, i: nat)
    requires i < |entries|
    ensures multiset(MovedToFront(entries, i)) == multiset(entries)
  {
    assert entries == entries[..i] + [entries[i]] + entries[i + 1..];
  }

  predicate Agree(entries: seq<AclEntry>, uid: U32, required: set<Permission>) {
    forall i, j :: 0 <= i < |entries| && 0 <= j < |entries| && entries[i].uid == uid && entries[j].uid == uid ==>
      (required <= entries[i].permissions <==> required <= entries[j].permissions)
  }

  /** For the owner the first entry decides: order is irrelevant exactly when the owner's entries agree. */
  lemma OrderIrrelevantForOwnerExactly(acl: Acl, gid: U32, required: set<Permission>)
    ensures (forall shuffled :: multiset(shuffled) == multiset(acl.entries) ==>
               CheckPermission(acl.(entries := shuffled), acl.owner, gid, required)
               == CheckPermission(acl, acl.owner, gid, required))
       <==> Agree(acl.entries, acl.owner, required)
  {
    var uid := acl.owner;
    if Agree(acl.entries, uid, required) {
      forall shuffled | multiset(shuffled) == multiset(acl.entries)
        ensures CheckPermission(acl.(entries := shuffled), uid, gid, required)
             == CheckPermission(acl, uid, gid, required)
      {
        AgreeingOwner(acl, shuffled, gid, required);
      }
    } else {
      var i, j :| 0 <= i < |acl.entries| && 0 <= j < |acl.entries| && acl.entries[i].uid == uid
               && acl.entries[j].uid == uid
               && (required <= acl.entries[i].permissions) != (required <= acl.entries[j].permissions);
      MovedIsShuffled(acl.entries, i);
      MovedIsShuffled(acl.entries, j);
      assert CheckPermission(acl.(entries := MovedToFront(acl.entries, i)), uid, gid, required)
          == (required <= acl.entries[i].permissions);
      assert CheckPermission(acl.(entries := MovedToFront(acl.entries, j)), uid, gid, required)
          == (required <= acl.entries[j].permissions);
    }
  }

  lemma AgreeingOwner(acl: Acl, shuffled: seq<AclEntry>, gid: U32, required: set<Permission>)
    requires Agree(acl.entries, acl.owner, required) && multiset(shuffled) == multiset(acl.entries)
    ensures CheckPermission(acl.(entries := shuffled), acl.owner, gid, required)
         == CheckPermission(acl, acl.owner, gid, required)
  {
    forall e
      ensures e in acl.entries <==> e in shuffled
    {
      assert e in multiset(acl.entries) <==> e in multiset(shuffled);
    }
    FirstForSome(acl.entries, acl.owner);
    FirstForSome(shuffled, acl.owner);
  }
}
