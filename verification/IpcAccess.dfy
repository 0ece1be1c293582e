/** Which clients are accepted and what they may do (src/Library/IPCServerPrivate.cpp). */
module IpcAccess {
  import opened Text
  import opened AccessControl

  datatype Acl = Acl(uids: map<nat, Store>, gids: map<nat, Store>, users: map<string, Store>,
                     groups: map<string, Store>)

  /** The user database; an empty name stands for a failed lookup. */
  datatype Names = Names(user: nat -> string, group: nat -> string, members: nat -> seq<string>,
                         membersByName: string -> seq<string>)

  /** The entries of an access control list. */
  datatype Entry = Uid(n: nat) | Gid(n: nat) | User(name: string) | Group(name: string)

  predicate HasEntry(acl: Acl, e: Entry) {
    match e
    case Uid(n) => n in acl.uids
    case Gid(n) => n in acl.gids
    case User(name) => name in acl.users
    case Group(name) => name in acl.groups
  }

  function StoreOf(acl: Acl, e: Entry): (s: Store)
    requires HasEntry(acl, e)
  {
    match e
    case Uid(n) => acl.uids[n]
    case Gid(n) => acl.gids[n]
    case User(name) => acl.users[name]
    case Group(name) => acl.groups[name]
  }

  predicate IsMember(user: string, members: seq<string>) {
    user != "" && user in members
  }

  /** The entries that are about a client with this user and group. */
  predicate Matches(acl: Acl, names: Names, uid: nat, gid: nat, e: Entry) {
    && HasEntry(acl, e)
    && match e
       case Uid(n) => n == uid
       case Gid(n) => n == gid || IsMember(names.user(uid), names.members(n))
       case User(name) => name == names.user(uid) && name != ""
       case Group(name) =>
         (name == names.group(gid) && name != "") || IsMember(names.user(uid), names.membersByName(name))
  }

  ghost predicate AnyMatch(acl: Acl, names: Names, uid: nat, gid: nat) {
    exists e :: Matches(acl, names, uid, gid, e)
  }

  predicate HasEntries(acl: Acl) {
    acl.uids.Keys != {} || acl.gids.Keys != {} || acl.users.Keys != {} || acl.groups.Keys != {}
  }

  predicate Grants(s: Store, section: Section, p: Bits) {
    section in s && Includes(s[section], p)
  }

  ghost predicate GrantedBy(acl: Acl, from: set<Entry>, section: Section, p: Bits) {
    exists e :: e in from && HasEntry(acl, e) && Grants(StoreOf(acl, e), section, p)
  }

  /** All entries were made from reachable values. */
  ghost predicate PermittedAcl(acl: Acl) {
    forall e :: HasEntry(acl, e) ==> Permitted(StoreOf(acl, e))
  }

  /** `s` holds exactly the privileges of the entries in `from`. */
  ghost predicate UnionOf(s: Store, acl: Acl, from: set<Entry>) {
    && (forall e :: e in from ==> HasEntry(acl, e))
    && (PermittedAcl(acl) ==> Permitted(s))
    && forall section, p | IsSingle(p) :: Grants(s, section, p) <==> GrantedBy(acl, from, section, p)
  }

  lemma NothingIsUnion(acl: Acl)
    ensures UnionOf(map[], acl, {})
  {
  }

  lemma GrantsOfMerge(a: Store, b: Store, section: Section, p: Bits)
    requires IsSingle(p)
    ensures Grants(Merge(a, b), section, p) <==> Grants(a, section, p) || Grants(b, section, p)
  {
    hide Merge, Or, Includes, IsSingle;
    BitLaws(BitsOf(a, section), BitsOf(b, section), p, 0);
    var r := Merge(a, b);
    assert section in r ==> r[section] == BitsOf(r, section);
  }

  /** Merging one more entry adds it to the union. */
  lemma MergeAdds(s: Store, acl: Acl, from: set<Entry>, e: Entry)
    requires UnionOf(s, acl, from) && HasEntry(acl, e)
    ensures UnionOf(Merge(s, StoreOf(acl, e)), acl, from + {e})
  {
    hide Merge, Grants, IsSingle, HasEntry, Permitted;
    var t := StoreOf(acl, e);
    if PermittedAcl(acl) {
      MergeKeepsPermitted(s, t);
    }
    forall section, p | IsSingle(p)
      ensures Grants(Merge(s, t), section, p) <==> GrantedBy(acl, from + {e}, section, p)
    {
      GrantsOfMerge(s, t, section, p);
      if GrantedBy(acl, from, section, p) {
        var f :| f in from && HasEntry(acl, f) && Grants(StoreOf(acl, f), section, p);
        assert f in from + {e};
      }
      if Grants(t, section, p) {
        assert e in from + {e};
      }
    }
  }

  class Server {
    var acl: Acl
    const names: Names

    constructor (names: Names)
      ensures this.names == names && acl == Acl(map[], map[], map[], map[])
    {
      this.names, acl := names, Acl(map[], map[], map[], map[]);
    }

    /** `emplace` keeps the entry that is there already. */
    method AddAllowedUid(uid: nat, ac: Store)
      modifies this
      ensures acl == old(acl).(uids := if uid in old(acl).uids then old(acl).uids else old(acl).uids[uid := ac])
    {
      if uid !in acl.uids {
        acl := acl.(uids := acl.uids[uid := ac]);
      }
    }

    method AddAllowedGid(gid: nat, ac: Store)
      modifies this
      ensures acl == old(acl).(gids := if gid in old(acl).gids then old(acl).gids else old(acl).gids[gid := ac])
    {
      if gid !in acl.gids {
        acl := acl.(gids := acl.gids[gid := ac]);
      }
    }

    method AddAllowedUsername(name: string, ac: Store)
      modifies this
      ensures acl == old(acl).(users := if name in old(acl).users then old(acl).users else old(acl).users[name := ac])
    {
      if name !in acl.users {
        acl := acl.(users := acl.users[name := ac]);
      }
    }

    method AddAllowedGroupname(name: string, ac: Store)
      modifies this
      ensures acl ==
        old(acl).(groups := if name in old(acl).groups then old(acl).groups else old(acl).groups[name := ac])
    {
      if name !in acl.groups {
        acl := acl.(groups := acl.groups[name := ac]);
      }
    }

    method MergeEntry(ac: Control, e: Entry, ghost from: set<Entry>)
      requires HasEntry(acl, e) && UnionOf(ac.store, acl, from)
      modifies ac
      ensures UnionOf(ac.store, acl, from + {e})
    {
      MergeAdds(ac.store, acl, from, e);
      ac.MergeFrom(StoreOf(acl, e));
    }

    method MatchAclByUid(uid: nat, ac: Control, ghost from: set<Entry>)
      returns (matched: bool, ghost merged: set<Entry>)
      requires UnionOf(ac.store, acl, from)
      modifies ac
      ensures UnionOf(ac.store, acl, merged) && merged == from + if matched then {Uid(uid)} else {}
      ensures matched == (uid in acl.uids)
    {
      merged := from;
      if uid !in acl.uids {
        return false, merged;
      }
      MergeEntry(ac, Uid(uid), merged);
      merged := merged + {Uid(uid)};
      matched := true;
    }

    method MatchAclByGid(gid: nat, ac: Control, ghost from: set<Entry>)
      returns (matched: bool, ghost merged: set<Entry>)
      requires UnionOf(ac.store, acl, from)
      modifies ac
      ensures UnionOf(ac.store, acl, merged) && merged == from + if matched then {Gid(gid)} else {}
      ensures matched == (gid in acl.gids)
    {
      merged := from;
      if gid !in acl.gids {
        return false, merged;
      }
      MergeEntry(ac, Gid(gid), merged);
      merged := merged + {Gid(gid)};
      matched := true;
    }

    /** The inner loop over the members of a group: the entry is merged for every equal name. */
    method MatchMembers(user: string, members: seq<string>, ac: Control, e: Entry, ghost from: set<Entry>)
      returns (matched: bool, ghost merged: set<Entry>)
      requires HasEntry(acl, e) && UnionOf(ac.store, acl, from)
      modifies ac
      ensures matched == (user in members)
      ensures UnionOf(ac.store, acl, merged) && merged == from + if matched then {e} else {}
    {
      hide UnionOf, HasEntry;
      matched, merged := false, from;
      for i := 0 to |members|
        invariant matched == (user in members[..i])
        invariant UnionOf(ac.store, acl, merged) && merged == from + if matched then {e} else {}
      {
        assert members[..i + 1] == members[..i] + [members[i]];
        if members[i] == user {
          MergeEntry(ac, e, merged);
          merged := merged + {e};
          matched := true;
        }
      }
      assert members[..|members|] == members;
    }

    /** The loop over the group entries by number, in the order of the hash table. */
    method MatchGidMembership(user: string, ac: Control, ghost from: set<Entry>)
      returns (matched: bool, ghost merged: set<Entry>)
      requires UnionOf(ac.store, acl, from)
      modifies ac
      ensures UnionOf(ac.store, acl, merged)
      ensures merged == from + set n | n in acl.gids && user in names.members(n) :: Gid(n)
      ensures matched == exists n :: n in acl.gids && user in names.members(n)
    {
      hide UnionOf;
      var left := acl.gids.Keys;
      matched, merged := false, from;
      while left != {}
        invariant left <= acl.gids.Keys && UnionOf(ac.store, acl, merged)
        invariant forall e :: e in merged <==>
          e in from || (e.Gid? && e.n in acl.gids && e.n !in left && user in names.members(e.n))
        invariant matched == exists n :: n in acl.gids && n !in left && user in names.members(n)
        decreases |left|
      {
        var n :| n in left;
        var hit;
        hit, merged := MatchMembers(user, names.members(n), ac, Gid(n), merged);
        matched := matched || hit;
        left := left - {n};
      }
    }

    /** The loop over the group entries by name. */
    method MatchGroupMembership(user: string, ac: Control, ghost from: set<Entry>)
      returns (matched: bool, ghost merged: set<Entry>)
      requires UnionOf(ac.store, acl, from)
      modifies ac
      ensures UnionOf(ac.store, acl, merged)
      ensures merged == from + set g | g in acl.groups && user in names.membersByName(g) :: Group(g)
      ensures matched == exists g :: g in acl.groups && user in names.membersByName(g)
    {
      hide UnionOf;
      var left := acl.groups.Keys;
      matched, merged := false, from;
      while left != {}
        invariant left <= acl.groups.Keys && UnionOf(ac.store, acl, merged)
        invariant forall e :: e in merged <==>
          e in from || (e.Group? && e.name in acl.groups && e.name !in left && user in names.membersByName(e.name))
        invariant matched == exists g :: g in acl.groups && g !in left && user in names.membersByName(g)
        decreases |left|
      {
        var g :| g in left;
        var hit;
        hit, merged := MatchMembers(user, names.membersByName(g), ac, Group(g), merged);
        matched := matched || hit;
        left := left - {g};
      }
    }

    method MatchAclByName(uid: nat, gid: nat, ac: Control, ghost from: set<Entry>)
      returns (matched: bool, ghost merged: set<Entry>)
      requires UnionOf(ac.store, acl, from)
      modifies ac
      ensures UnionOf(ac.store, acl, merged)
      ensures forall e :: e in merged <==> e in from || ByName(acl, names, uid, gid, e)
      ensures matched == exists e :: ByName(acl, names, uid, gid, e)
    {
      hide UnionOf, HasEntry;
      merged, matched := from, false;
      var user := names.user(uid);
      matched, merged := MatchOwnNames(user, names.group(gid), ac, merged);
      if user != "" {
        var byGid, byName;
        byGid, merged := MatchGidMembership(user, ac, merged);
        byName, merged := MatchGroupMembership(user, ac, merged);
        matched := matched || byGid || byName;
      }
      NamesSplit(acl, names, uid, gid);
    }

    /** The names of the user and of the group, as far as there are any. */
    method MatchOwnNames(user: string, group: string, ac: Control, ghost from: set<Entry>)
      returns (matched: bool, ghost merged: set<Entry>)
      requires UnionOf(ac.store, acl, from)
      modifies ac
      ensures UnionOf(ac.store, acl, merged)
      ensures merged == from + (if user != "" && user in acl.users then {User(user)} else {})
        + if group != "" && group in acl.groups then {Group(group)} else {}
      ensures matched == ((user != "" && user in acl.users) || (group != "" && group in acl.groups))
    {
      hide UnionOf;
      merged, matched := from, false;
      if user != "" && user in acl.users {
        MergeEntry(ac, User(user), merged);
        merged, matched := merged + {User(user)}, true;
      }
      if group != "" && group in acl.groups {
        MergeEntry(ac, Group(group), merged);
        merged, matched := merged + {Group(group)}, true;
      }
    }

    /**
     * authenticateIPCConnectionDAC and qbIPCConnectionAllowed: a client is accepted if some entry is
     * about it or if there are no entries, and it gets the privileges of exactly the entries about it.
     */
    method ConnectionAllowed(uid: nat, gid: nat, ac: Control) returns (allowed: bool, ghost merged: set<Entry>)
      requires ac.store == map[]
      modifies ac
      ensures allowed == (!HasEntries(acl) || AnyMatch(acl, names, uid, gid))
      ensures AcceptedWith(acl, names, uid, gid, ac.store, merged)
    {
      hide UnionOf;
      merged := {};
      NothingIsUnion(acl);
      if !HasEntries(acl) {
        return true, merged;
      }
      var byUid, byGid, byName;
      byUid, merged := MatchAclByUid(uid, ac, merged);
      byGid, merged := MatchAclByGid(gid, ac, merged);
      byName, merged := MatchAclByName(uid, gid, ac, merged);
      allowed := byUid || byGid || byName;
      MatchesSplit(acl, names, uid, gid);
      assert byUid ==> Matches(acl, names, uid, gid, Uid(uid));
      assert byGid ==> Matches(acl, names, uid, gid, Gid(gid));
    }

    /**
     * handleCheckIPCPermissions: the answer is the one that the gate in front of the request handlers
     * gives to a client that was accepted with the same user and group.
     */
    method CheckPermissions(uid: nat, gid: nat, section: Section, p: Bits) returns (r: Result<bool>)
      ensures HasEntries(acl) && !AnyMatch(acl, names, uid, gid) ==> r == Ok(false)
      ensures !HasEntries(acl) || AnyMatch(acl, names, uid, gid) ==>
        forall s, from :: AcceptedWith(acl, names, uid, gid, s, from) && PermittedAcl(acl) && IsPrivilege(p) ==>
          r == HasPrivilege(s, section, p)
    {
      hide UnionOf, PermittedAcl, Matches, HasEntries;
      var ac := new Control();
      var auth;
      ghost var merged;
      auth, merged := ConnectionAllowed(uid, gid, ac);
      if !auth {
        return Ok(false);
      }
      r := ac.Has(section, p);
      forall s, from | AcceptedWith(acl, names, uid, gid, s, from) && PermittedAcl(acl) && IsPrivilege(p)
        ensures r == HasPrivilege(s, section, p)
      {
        assert from == merged;
        SameAnswers(acl, merged, ac.store, s);
      }
    }
  }

  /** `s` can be what a client with this user and group holds once it has been accepted. */
  ghost predicate AcceptedWith(acl: Acl, names: Names, uid: nat, gid: nat, s: Store, from: set<Entry>) {
    UnionOf(s, acl, from) && forall e :: e in from <==> Matches(acl, names, uid, gid, e)
  }

  /** The entries that matchACLByName finds. */
  predicate ByName(acl: Acl, names: Names, uid: nat, gid: nat, e: Entry) {
    && HasEntry(acl, e)
    && match e
       case Uid(_) => false
       case Gid(n) => IsMember(names.user(uid), names.members(n))
       case User(name) => name == names.user(uid) && name != ""
       case Group(name) =>
         (name == names.group(gid) && name != "") || IsMember(names.user(uid), names.membersByName(name))
  }

  /** The entries by name, kind by kind. */
  lemma NamesSplit(acl: Acl, names: Names, uid: nat, gid: nat)
    ensures
      var user, group := names.user(uid), names.group(gid);
      && (forall e :: ByName(acl, names, uid, gid, e) <==>
        || (e == User(user) && user != "" && user in acl.users)
        || (e == Group(group) && group != "" && group in acl.groups)
        || (user != "" && e.Gid? && e.n in acl.gids && user in names.members(e.n))
        || (user != "" && e.Group? && e.name in acl.groups && user in names.membersByName(e.name)))
      && ((exists e :: ByName(acl, names, uid, gid, e)) <==>
        || (user != "" && user in acl.users) || (group != "" && group in acl.groups)
        || (user != "" && exists n :: n in acl.gids && user in names.members(n))
        || (user != "" && exists g :: g in acl.groups && user in names.membersByName(g)))
  {
    var user, group := names.user(uid), names.group(gid);
    if user != "" && user in acl.users {
      assert ByName(acl, names, uid, gid, User(user));
    }
    if group != "" && group in acl.groups {
      assert ByName(acl, names, uid, gid, Group(group));
    }
    forall n | n in acl.gids && user in names.members(n) && user != "" ensures ByName(acl, names, uid, gid, Gid(n)) {
    }
    forall g | g in acl.groups && user in names.membersByName(g) && user != ""
      ensures ByName(acl, names, uid, gid, Group(g))
    {
    }
  }

  lemma MatchesSplit(acl: Acl, names: Names, uid: nat, gid: nat)
    ensures forall e :: Matches(acl, names, uid, gid, e) <==>
      (e == Uid(uid) && uid in acl.uids) || (e == Gid(gid) && gid in acl.gids) || ByName(acl, names, uid, gid, e)
  {
  }

  // ----- What the results mean

  /** An accepted client holds a privilege exactly if an entry about it grants it. */
  lemma HeldExactly(acl: Acl, names: Names, uid: nat, gid: nat, s: Store, from: set<Entry>, section: Section, p: Bits)
    requires AcceptedWith(acl, names, uid, gid, s, from) && IsProper(section) && IsSingle(p)
    ensures HasPrivilege(s, section, p)
      == Ok(exists e :: Matches(acl, names, uid, gid, e) && HasPrivilege(StoreOf(acl, e), section, p).value)
  {
    SingleIsSomething(p);
    assert Grants(s, section, p) <==> GrantedBy(acl, from, section, p);
    if GrantedBy(acl, from, section, p) {
      var e :| e in from && HasEntry(acl, e) && Grants(StoreOf(acl, e), section, p);
      assert Matches(acl, names, uid, gid, e) && HasPrivilege(StoreOf(acl, e), section, p).value;
    }
  }

  /**
   * A client is accepted by a list with entries exactly if its user or group is in it, by number or by
   * name, or its user is a member of a group in it.
   */
  lemma WhoIsMeant(acl: Acl, names: Names, uid: nat, gid: nat)
    ensures
      var user, group := names.user(uid), names.group(gid);
      AnyMatch(acl, names, uid, gid) <==>
        || uid in acl.uids || gid in acl.gids
        || (user != "" && user in acl.users) || (group != "" && group in acl.groups)
        || (user != "" && exists n :: n in acl.gids && user in names.members(n))
        || (user != "" && exists name :: name in acl.groups && user in names.membersByName(name))
  {
    var user, group := names.user(uid), names.group(gid);
    assert uid in acl.uids ==> Matches(acl, names, uid, gid, Uid(uid));
    assert gid in acl.gids ==> Matches(acl, names, uid, gid, Gid(gid));
    assert user != "" && user in acl.users ==> Matches(acl, names, uid, gid, User(user));
    assert group != "" && group in acl.groups ==> Matches(acl, names, uid, gid, Group(group));
    forall n | n in acl.gids && user != "" && user in names.members(n) ensures Matches(acl, names, uid, gid, Gid(n)) {
    }
    forall name | name in acl.groups && user != "" && user in names.membersByName(name)
      ensures Matches(acl, names, uid, gid, Group(name))
    {
    }
  }

  /** So two evaluations for the same client, in whatever order, answer every query alike. */
  lemma SameAnswers(acl: Acl, from: set<Entry>, a: Store, b: Store)
    requires UnionOf(a, acl, from) && UnionOf(b, acl, from) && PermittedAcl(acl)
    ensures forall x, p | IsPrivilege(p) :: HasPrivilege(a, x, p) == HasPrivilege(b, x, p)
  {
    hide Permitted, Includes, GrantedBy;
    forall x, p | IsProper(x) && IsSingle(p) ensures HasPrivilege(a, x, p) == HasPrivilege(b, x, p) {
      SingleIsSomething(p);
      assert Grants(a, x, p) == Grants(b, x, p);
    }
    SinglesDecide(a, b);
  }

  /** An empty list lets every client in, without a single privilege. */
  lemma EmptyListGrantsNothing(acl: Acl, names: Names, uid: nat, gid: nat, s: Store, merged: set<Entry>,
                               section: Section, p: Bits)
    requires !HasEntries(acl) && IsProper(section) && IsSingle(p)
    requires AcceptedWith(acl, names, uid, gid, s, merged)
    ensures HasPrivilege(s, section, p) == Ok(false)
  {
    SingleIsSomething(p);
    assert Grants(s, section, p) <==> GrantedBy(acl, merged, section, p);
  }
}
