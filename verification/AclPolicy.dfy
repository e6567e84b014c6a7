/** Preparing decoded ACLs for a client, and what access decisions may depend on. */
module AclPolicy {
  import opened AclEval
  import opened AclXdr
  import opened FileBytes

  const OWNER_WHO: Bytes := [79, 87, 78, 69, 82, 64]
  const GROUP_WHO: Bytes := [71, 82, 79, 85, 80, 64]
  const EVERYONE_WHO: Bytes := [69, 86, 69, 82, 89, 79, 78, 69, 64]
  const SID_PREFIX: Bytes := [83, 45, 49]

  /** What one resolver of this client knows; names it cannot resolve are absent. */
  datatype Resolver = Resolver(ready: bool, users: map<Bytes, nat>, groups: map<Bytes, nat>)

  /** The identities a client can resolve: security identifiers and plain ids. */
  datatype Directory = Directory(sid: Resolver, trivial: Resolver)

  function SelectResolver(who: Bytes, d: Directory): Resolver {
    if |who| >= 3 && who[..3] == SID_PREFIX then d.sid else d.trivial
  }

  function PrincipalOf(ace: Ace, d: Directory): Principal {
    if ace.who == OWNER_WHO then Owner
    else if ace.who == GROUP_WHO then Group
    else if ace.who == EVERYONE_WHO then Everyone
    else
      var r := SelectResolver(ace.who, d);
      if !r.ready then Unresolved
      else if Has(ace.flags, IDENTIFIER_GROUP) then
        if ace.who in r.groups then Gid(r.groups[ace.who]) else Unresolved
      else
        if ace.who in r.users then Uid(r.users[ace.who]) else Unresolved
  }

  function PrepareAce(ace: Ace, d: Directory): PreparedAce {
    PreparedAce(ace.aceType, ace.flags, ace.mask, PrincipalOf(ace, d))
  }

  function Prepared(acl: seq<Ace>, d: Directory): seq<PreparedAce> {
    seq(|acl|, i requires 0 <= i < |acl| => PrepareAce(acl[i], d))
  }

  method PrepareAcl(acl: seq<Ace>, d: Directory) returns (prepared: seq<PreparedAce>)
    ensures prepared == Prepared(acl, d)
  {
    prepared := [];
    for i := 0 to |acl|
      invariant prepared == Prepared(acl, d)[..i]
    {
      prepared := prepared + [PrepareAce(acl[i], d)];
    }
  }

  function Ascii(s: string): Bytes
    requires forall i :: 0 <= i < |s| ==> s[i] as int < 256
  {
    seq(|s|, i requires 0 <= i < |s| => s[i] as Byte)
  }

  lemma SpecialNames()
    ensures OWNER_WHO == Ascii("OWNER@") && GROUP_WHO == Ascii("GROUP@") && EVERYONE_WHO == Ascii("EVERYONE@")
    ensures SID_PREFIX == Ascii("S-1")
  {
  }

  /** Names of security identifiers never need the plain resolver, and other names never need the other one. */
  lemma ResolversAreSeparate(ace: Ace, d: Directory, other: Resolver)
    ensures Ascii("S-1") <= ace.who ==> PrepareAce(ace, d) == PrepareAce(ace, d.(trivial := other))
    ensures !(Ascii("S-1") <= ace.who) ==> PrepareAce(ace, d) == PrepareAce(ace, d.(sid := other))
  {
    SpecialNames();
  }

  /** The groups or the users that the resolver for a name knows; none while it is not ready. */
  function Known(who: Bytes, asGroup: bool, d: Directory): map<Bytes, nat> {
    var r := if Ascii("S-1") <= who then d.sid else d.trivial;
    if !r.ready then map[] else if asGroup then r.groups else r.users
  }

  /** Whom an entry with a name of the client's directory is meant for; flag 0x40 marks a group. */
  predicate MeantFor(ace: Ace, d: Directory, s: Subject) {
    if ace.who == Ascii("OWNER@") then s.uid == s.fileUid
    else if ace.who == Ascii("GROUP@") then s.fileGid in GroupsOf(s)
    else if ace.who == Ascii("EVERYONE@") then true
    else
      var asGroup := ace.flags / 64 % 2 == 1;
      var known := Known(ace.who, asGroup, d);
      ace.who in known && if asGroup then known[ace.who] in GroupsOf(s) else known[ace.who] == s.uid
  }

  /** From names to decisions: a list of one entry grants or denies to exactly those it is meant for. */
  lemma PreparedEntryExactly(ace: Ace, d: Directory, s: Subject, req: nat)
    requires req != 0 && forall b: nat :: Has(req, b) ==> Has(ace.mask, b)
    ensures Decision(Prepared([ace], d), s, req) == if MeantFor(ace, d, s) then SayOf(ace.aceType, ace.flags) else 1
  {
    SpecialNames();
    FlagBits(ace.flags);
    assert Prepared([ace], d) == [PrepareAce(ace, d)];
    SingleEntryExactly(PrepareAce(ace, d), s, req);
  }

  // Fail-safe skipping of names a client cannot resolve

  /** Everything `poor` resolves, `rich` resolves the same way. */
  predicate Extends(poor: Resolver, rich: Resolver) {
    poor.ready ==>
      && rich.ready
      && (forall w :: w in poor.users ==> w in rich.users && rich.users[w] == poor.users[w])
      && (forall w :: w in poor.groups ==> w in rich.groups && rich.groups[w] == poor.groups[w])
  }

  predicate KnowsLess(poor: Directory, rich: Directory) {
    Extends(poor.sid, rich.sid) && Extends(poor.trivial, rich.trivial)
  }

  predicate IsSpecial(who: Bytes) { who == OWNER_WHO || who == GROUP_WHO || who == EVERYONE_WHO }

  /** The recommended form: only OWNER@, GROUP@ and EVERYONE@ are denied by name. */
  predicate Whitelist(acl: seq<Ace>) {
    forall i :: 0 <= i < |acl| ==> acl[i].aceType == DENIED_TYPE ==> IsSpecial(acl[i].who)
  }

  lemma KnowingLessDegrades(ace: Ace, poor: Directory, rich: Directory)
    requires KnowsLess(poor, rich)
    ensures PrincipalOf(ace, poor) == Unresolved || PrincipalOf(ace, poor) == PrincipalOf(ace, rich)
    ensures IsSpecial(ace.who) ==> PrincipalOf(ace, poor) == PrincipalOf(ace, rich)
  {
  }

  lemma PreparedTail(acl: seq<Ace>, d: Directory)
    requires acl != []
    ensures Prepared(acl, d)[0] == PrepareAce(acl[0], d) && Prepared(acl, d)[1..] == Prepared(acl[1..], d)
  {
  }

  lemma {:induction false} PoorAllowIsRichAllow(acl: seq<Ace>, poor: Directory, rich: Directory, s: Subject, b: nat)
    requires KnowsLess(poor, rich) && Whitelist(acl)
    ensures FirstMatch(Prepared(acl, poor), s, b) == Allow ==> FirstMatch(Prepared(acl, rich), s, b) == Allow
    decreases |acl|
  {
    if acl != [] {
      PreparedTail(acl, poor);
      PreparedTail(acl, rich);
      KnowingLessDegrades(acl[0], poor, rich);
      PoorAllowIsRichAllow(acl[1..], poor, rich, s, b);
    }
  }

  /** A client that resolves fewer names never grants what a better informed one does not. */
  lemma WhitelistIsFailSafe(acl: seq<Ace>, poor: Directory, rich: Directory, s: Subject, req: nat)
    requires KnowsLess(poor, rich) && Whitelist(acl)
    ensures Decision(Prepared(acl, poor), s, req) == 0 ==> Decision(Prepared(acl, rich), s, req) == 0
  {
    if Decision(Prepared(acl, poor), s, req) == 0 {
      forall b: nat | Has(req, b)
        ensures FirstMatch(Prepared(acl, rich), s, b) == Allow
      {
        PoorAllowIsRichAllow(acl, poor, rich, s, b);
      }
    }
  }

  /** Any denial of a named user whom only one client resolves lets the other client grant more. */
  lemma NamedDenyIsNotFailSafe(deny: Ace, rest: seq<Ace>, poor: Directory, rich: Directory, s: Subject, b: nat, req: nat)
    requires deny.aceType == DENIED_TYPE && !Has(deny.flags, INHERIT_ONLY) && Has(deny.mask, b) && Has(req, b)
    requires PrincipalOf(deny, poor) == Unresolved && PrincipalOf(deny, rich) == Uid(s.uid)
    requires Decision(Prepared(rest, poor), s, req) == 0
    ensures Decision(Prepared([deny] + rest, poor), s, req) == 0
    ensures Decision(Prepared([deny] + rest, rich), s, req) == -EACCES
  {
    var acl := [deny] + rest;
    PreparedTail(acl, poor);
    PreparedTail(acl, rich);
    assert acl[1..] == rest;
    assert FirstMatch(Prepared(acl, rich), s, b) == Deny;
    forall c: nat | Has(req, c)
      ensures FirstMatch(Prepared(acl, poor), s, c) == Allow
    {
      assert FirstMatch(Prepared(rest, poor), s, c) == Allow;
    }
  }

  // Exactly which ACLs are fail-safe

  /** No client grants a request that a better informed one does not. */
  ghost predicate FailSafe(acl: seq<Ace>) {
    forall poor, rich, s, req: nat ::
      KnowsLess(poor, rich) && Decision(Prepared(acl, poor), s, req) == 0 ==> Decision(Prepared(acl, rich), s, req) == 0
  }

  /** The entry takes part in access checks of bit `b`, for whomever it is meant. */
  predicate Live(ace: Ace, b: nat) {
    && !Has(ace.flags, INHERIT_ONLY) && Has(ace.mask, b)
    && (ace.aceType == ALLOWED_TYPE || ace.aceType == DENIED_TYPE)
  }

  predicate SamePrincipal(x: Ace, y: Ace) {
    x.who == y.who && (IsSpecial(x.who) || (Has(x.flags, IDENTIFIER_GROUP) <==> Has(y.flags, IDENTIFIER_GROUP)))
  }

  /** Whenever entry `y` would decide bit `b`, so does the earlier entry `x`. */
  predicate Shadows(x: Ace, y: Ace, b: nat) {
    Live(x, b) && (x.who == EVERYONE_WHO || SamePrincipal(x, y))
  }

  predicate Shadowed(acl: seq<Ace>, j: nat, b: nat)
    requires j < |acl|
  {
    exists k :: 0 <= k < j && Shadows(acl[k], acl[j], b)
  }

  /** The denial of a named principal stands before a permission that is not overruled otherwise. */
  predicate Exposed(acl: seq<Ace>, i: nat, j: nat, b: nat) {
    && i < j < |acl| && Live(acl[i], b) && Live(acl[j], b)
    && acl[i].aceType == DENIED_TYPE && !IsSpecial(acl[i].who) && acl[j].aceType == ALLOWED_TYPE
    && !Shadowed(acl, i, b) && !Shadowed(acl, j, b)
  }

  predicate Matches(p: PreparedAce, s: Subject, b: nat) { Applicable(p, s) && Has(p.mask, b) }

  ghost predicate IsFirst(p: seq<PreparedAce>, s: Subject, b: nat, j: nat) {
    j < |p| && Matches(p[j], s, b) && forall k :: 0 <= k < j ==> !Matches(p[k], s, b)
  }

  function VerdictOf(p: PreparedAce): Verdict { if p.aceType == DENIED_TYPE then Deny else Allow }

  lemma {:induction false} FirstDecides(p: seq<PreparedAce>, s: Subject, b: nat, j: nat)
    requires IsFirst(p, s, b, j)
    ensures FirstMatch(p, s, b) == VerdictOf(p[j])
    decreases |p|
  {
    if j > 0 {
      assert !Matches(p[0], s, b);
      assert forall k :: 0 <= k < j - 1 ==> p[1..][k] == p[k + 1];
      FirstDecides(p[1..], s, b, j - 1);
    }
  }

  lemma {:induction false} FindFirst(p: seq<PreparedAce>, s: Subject, b: nat, n: nat) returns (j: nat)
    requires n < |p| && Matches(p[n], s, b)
    ensures j <= n && IsFirst(p, s, b, j)
  {
    j := 0;
    while !Matches(p[j], s, b)
      invariant j <= n && forall k :: 0 <= k < j ==> !Matches(p[k], s, b)
      decreases n - j
    {
      j := j + 1;
    }
  }

  lemma {:induction false} SomeMatch(p: seq<PreparedAce>, s: Subject, b: nat) returns (n: nat)
    requires FirstMatch(p, s, b) != Silent
    ensures n < |p| && Matches(p[n], s, b)
    decreases |p|
  {
    if Matches(p[0], s, b) {
      n := 0;
    } else {
      var m := SomeMatch(p[1..], s, b);
      n := m + 1;
    }
  }

  /** What shadows a matching entry matches too. */
  lemma ShadowMatches(x: Ace, y: Ace, d: Directory, s: Subject, b: nat)
    requires Shadows(x, y, b) && Matches(PrepareAce(y, d), s, b)
    ensures Matches(PrepareAce(x, d), s, b)
  {
  }

  lemma NotShadowed(acl: seq<Ace>, d: Directory, s: Subject, b: nat, j: nat)
    requires j < |acl| && IsFirst(Prepared(acl, d), s, b, j)
    ensures !Shadowed(acl, j, b)
  {
    forall k | 0 <= k < j
      ensures !Shadows(acl[k], acl[j], b)
    {
      assert !Matches(Prepared(acl, d)[k], s, b);
      if Shadows(acl[k], acl[j], b) {
        ShadowMatches(acl[k], acl[j], d, s, b);
      }
    }
  }

  lemma UnexposedBit(acl: seq<Ace>, poor: Directory, rich: Directory, s: Subject, b: nat)
    requires KnowsLess(poor, rich) && FirstMatch(Prepared(acl, poor), s, b) == Allow
    requires forall i: nat, j: nat :: !Exposed(acl, i, j, b)
    ensures FirstMatch(Prepared(acl, rich), s, b) == Allow
  {
    var p, r := Prepared(acl, poor), Prepared(acl, rich);
    var n := SomeMatch(p, s, b);
    var j := FindFirst(p, s, b, n);
    FirstDecides(p, s, b, j);
    KnowingLessDegrades(acl[j], poor, rich);
    assert Matches(r[j], s, b);
    var i := FindFirst(r, s, b, j);
    FirstDecides(r, s, b, i);
    if i < j && acl[i].aceType == DENIED_TYPE {
      KnowingLessDegrades(acl[i], poor, rich);
      assert !Matches(p[i], s, b) && Matches(r[i], s, b);
      NotShadowed(acl, rich, s, b, i);
      NotShadowed(acl, poor, s, b, j);
      assert Exposed(acl, i, j, b);
    }
  }

  /** The request for a single bit. */
  function OneBit(b: nat): nat { if b == 0 then 1 else 2 * OneBit(b - 1) }

  lemma {:induction false} OneBitHas(b: nat, i: nat)
    ensures Has(OneBit(b), i) <==> i == b
  {
    if b == 0 {
      if i > 0 {
        ZeroHasNone(i - 1);
      }
    } else if i > 0 {
      OneBitHas(b - 1, i - 1);
    }
  }

  /** Decisions on a single bit follow its first match. */
  lemma OneBitDecision(p: seq<PreparedAce>, s: Subject, b: nat)
    ensures FirstMatch(p, s, b) == Allow ==> Decision(p, s, OneBit(b)) == 0
    ensures FirstMatch(p, s, b) == Deny ==> Decision(p, s, OneBit(b)) == -EACCES
  {
    forall i: nat ensures Has(OneBit(b), i) <==> i == b { OneBitHas(b, i); }
    ZeroHasNone(b);
  }

  /** A client that knows just the names of some entries, all of them as user 1 or group 1. */
  function Knowing(aces: seq<Ace>): Directory {
    var r := Resolver(true,
      map ace | ace in aces && !Has(ace.flags, IDENTIFIER_GROUP) :: ace.who := 1,
      map ace | ace in aces && Has(ace.flags, IDENTIFIER_GROUP) :: ace.who := 1);
    Directory(r, r)
  }

  /** User 1 of group 1, who owns the file or belongs to its group only where entry `y` asks for that. */
  function SubjectOf(y: Ace): Subject {
    Subject(1, 1, {}, if y.who == OWNER_WHO then 1 else 0, if y.who == GROUP_WHO then 1 else 0)
  }

  lemma KnownMatches(aces: seq<Ace>, x: Ace, y: Ace, b: nat)
    requires Live(x, b) && (x == y || (x in aces && !IsSpecial(x.who))) && y in aces
    ensures Matches(PrepareAce(x, Knowing(aces)), SubjectOf(y), b)
  {
  }

  lemma UnknownDoesNot(aces: seq<Ace>, x: Ace, y: Ace, b: nat)
    requires y in aces && (forall a :: a in aces ==> !Shadows(x, a, b))
    ensures !Matches(PrepareAce(x, Knowing(aces)), SubjectOf(y), b)
  {
  }

  lemma ExposedIsUnsafe(acl: seq<Ace>, i: nat, j: nat, b: nat)
    requires Exposed(acl, i, j, b)
    ensures !FailSafe(acl)
  {
    var x, y := acl[i], acl[j];
    var poor, rich, s := Knowing([y]), Knowing([x, y]), SubjectOf(y);
    var p, r := Prepared(acl, poor), Prepared(acl, rich);
    forall k | 0 <= k < j ensures !Matches(p[k], s, b) {
      assert !Shadows(acl[k], y, b);
      UnknownDoesNot([y], acl[k], y, b);
    }
    forall k | 0 <= k < i ensures !Matches(r[k], s, b) {
      assert !Shadows(acl[k], y, b) && !Shadows(acl[k], x, b);
      UnknownDoesNot([x, y], acl[k], y, b);
    }
    KnownMatches([y], y, y, b);
    KnownMatches([x, y], x, y, b);
    assert IsFirst(p, s, b, j) && IsFirst(r, s, b, i);
    FirstDecides(p, s, b, j);
    FirstDecides(r, s, b, i);
    OneBitDecision(p, s, b);
    OneBitDecision(r, s, b);
    assert KnowsLess(poor, rich);
  }

  /**
   * An ACL is fail-safe if and only if for no bit the denial of a named principal stands before a permission
   * such that neither comes behind an entry for EVERYONE@ or for its own principal on that bit.
   */
  lemma FailSafeExactly(acl: seq<Ace>)
    ensures FailSafe(acl) <==> forall i: nat, j: nat, b: nat :: !Exposed(acl, i, j, b)
  {
    if i: nat, j: nat, b: nat :| Exposed(acl, i, j, b) {
      ExposedIsUnsafe(acl, i, j, b);
    } else {
      forall poor, rich, s, req: nat | KnowsLess(poor, rich) && Decision(Prepared(acl, poor), s, req) == 0
        ensures Decision(Prepared(acl, rich), s, req) == 0
      {
        forall b: nat | Has(req, b)
          ensures FirstMatch(Prepared(acl, rich), s, b) == Allow
        {
          UnexposedBit(acl, poor, rich, s, b);
        }
      }
    }
  }

  /** A catch-all denial at the end decides every request within its mask: no fallback to mode bits. */
  lemma CatchAllDecides(acl: seq<Ace>, last: Ace, d: Directory, s: Subject, req: nat)
    requires last.aceType == DENIED_TYPE && last.who == EVERYONE_WHO && !Has(last.flags, INHERIT_ONLY)
    requires req != 0 && forall b: nat :: Has(req, b) ==> Has(last.mask, b)
    ensures Decision(Prepared(acl + [last], d), s, req) == if AllAllowed(Prepared(acl, d), s, req) then 0 else -EACCES
  {
    var p := Prepared(acl, d);
    assert Prepared(acl + [last], d) == p + [PrepareAce(last, d)];
    forall b: nat | Has(req, b)
      ensures FirstMatch(p + [PrepareAce(last, d)], s, b) ==
              if FirstMatch(p, s, b) == Allow then Allow else Deny
    {
      FirstMatchAppend(p, PrepareAce(last, d), s, b);
    }
    var some := LowestBit(req);
    if !AllAllowed(p, s, req) {
      var b: nat :| Has(req, b) && FirstMatch(p, s, b) != Allow;
      assert FirstMatch(p + [PrepareAce(last, d)], s, b) == Deny;
    }
  }

  // How decisions depend on the request and on the order of entries

  /** A granted request grants each part of it; a denied one stays denied when more is asked. */
  lemma DecisionIsMonotone(acl: seq<PreparedAce>, s: Subject, part: nat, req: nat)
    requires forall b: nat :: Has(part, b) ==> Has(req, b)
    ensures Decision(acl, s, req) == 0 && part != 0 ==> Decision(acl, s, part) == 0
    ensures Decision(acl, s, part) == -EACCES ==> Decision(acl, s, req) == -EACCES
  {
    if SomeDenied(acl, s, part) {
      var b: nat :| Has(part, b) && FirstMatch(acl, s, b) == Deny;
      assert Has(req, b);
    }
  }

  lemma {:induction false} SwapSameVerdict(pre: seq<PreparedAce>, x: PreparedAce, y: PreparedAce,
                                           post: seq<PreparedAce>, s: Subject, b: nat)
    requires x.aceType == y.aceType
    ensures FirstMatch(pre + ([x, y] + post), s, b) == FirstMatch(pre + ([y, x] + post), s, b)
    decreases |pre|
  {
    var xy, yx := [x, y] + post, [y, x] + post;
    if pre == [] {
      assert pre + xy == xy && pre + yx == yx;
      assert xy[1..][1..] == post && yx[1..][1..] == post;
      assert xy[1..][0] == y && yx[1..][0] == x;
    } else {
      assert (pre + xy)[1..] == pre[1..] + xy && (pre + yx)[1..] == pre[1..] + yx;
      SwapSameVerdict(pre[1..], x, y, post, s, b);
    }
  }

  /** Neighbouring entries of the same type may be exchanged. */
  lemma SwapSameType(pre: seq<PreparedAce>, x: PreparedAce, y: PreparedAce, post: seq<PreparedAce>, s: Subject, req: nat)
    requires x.aceType == y.aceType
    ensures Decision(pre + ([x, y] + post), s, req) == Decision(pre + ([y, x] + post), s, req)
  {
    forall b: nat
      ensures FirstMatch(pre + ([x, y] + post), s, b) == FirstMatch(pre + ([y, x] + post), s, b)
    {
      SwapSameVerdict(pre, x, y, post, s, b);
    }
  }

  /** A denial does not take precedence over an earlier permission: order decides between the two. */
  lemma OrderDecides(s: Subject)
    ensures var allow := PreparedAce(ALLOWED_TYPE, 0, 1, Everyone);
            var deny := PreparedAce(DENIED_TYPE, 0, 1, Everyone);
            Decision([allow, deny], s, 1) == 0 && Decision([deny, allow], s, 1) == -EACCES
  {
    var allow := PreparedAce(ALLOWED_TYPE, 0, 1, Everyone);
    var deny := PreparedAce(DENIED_TYPE, 0, 1, Everyone);
    ZeroHasNone(2);
    assert !Has(0, INHERIT_ONLY);
    forall b: nat | Has(1, b)
      ensures FirstMatch([allow, deny], s, b) == Allow
    {
    }
    assert Has(1, 0);
    assert FirstMatch([deny, allow], s, 0) == Deny;
  }
}
