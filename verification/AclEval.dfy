/** Evaluation of prepared NFSv4 ACLs, against the bit by bit rule of section 6.2.1 of RFC 7530. */
module AclEval {

  const ALLOWED_TYPE := 0
  const DENIED_TYPE := 1

  // Flag bits by number: values 0x8 and 0x40.
  const INHERIT_ONLY := 3
  const IDENTIFIER_GROUP := 6

  const EACCES := 13

  /** Bit `i` of a mask. */
  predicate Has(mask: nat, i: nat)
    decreases i
  {
    if i == 0 then mask % 2 == 1 else Has(mask / 2, i - 1)
  }

  function And(a: nat, b: nat): nat {
    if a == 0 then 0 else And(a / 2, b / 2) * 2 + (if a % 2 == 1 && b % 2 == 1 then 1 else 0)
  }

  function Clear(a: nat, b: nat): nat {
    if a == 0 then 0 else Clear(a / 2, b / 2) * 2 + (if a % 2 == 1 && b % 2 == 0 then 1 else 0)
  }

  lemma {:induction false} ZeroHasNone(i: nat)
    ensures !Has(0, i)
  {
    if i != 0 { ZeroHasNone(i - 1); }
  }

  lemma {:induction false} AndBits(a: nat, b: nat, i: nat)
    ensures Has(And(a, b), i) <==> Has(a, i) && Has(b, i)
  {
    if a == 0 {
      ZeroHasNone(i);
    } else if i != 0 {
      assert And(a, b) / 2 == And(a / 2, b / 2);
      AndBits(a / 2, b / 2, i - 1);
    }
  }

  lemma {:induction false} ClearBits(a: nat, b: nat, i: nat)
    ensures Has(Clear(a, b), i) <==> Has(a, i) && !Has(b, i)
  {
    if a == 0 {
      ZeroHasNone(i);
    } else if i != 0 {
      assert Clear(a, b) / 2 == Clear(a / 2, b / 2);
      ClearBits(a / 2, b / 2, i - 1);
    }
  }

  /** Every nonzero mask has a bit. */
  lemma {:induction false} LowestBit(m: nat) returns (i: nat)
    requires m != 0
    ensures Has(m, i)
  {
    if m % 2 == 1 {
      i := 0;
    } else {
      var j := LowestBit(m / 2);
      i := j + 1;
    }
  }

  datatype Principal =
    | Owner
    | Group
    | Everyone
    | Uid(uid: nat)
    | Gid(gid: nat)
    | Unresolved

  datatype PreparedAce = PreparedAce(aceType: nat, flags: nat, mask: nat, principal: Principal)

  /** The requesting subject and the owner and group of the file it asks about. */
  datatype Subject = Subject(uid: nat, gid: nat, groups: set<nat>, fileUid: nat, fileGid: nat)

  predicate AppliesToSubject(ace: PreparedAce, s: Subject) {
    match ace.principal
    case Owner => s.fileUid == s.uid
    case Group => s.fileGid == s.gid || s.fileGid in s.groups
    case Everyone => true
    case Gid(gid) => gid == s.gid || gid in s.groups
    case Uid(uid) => uid == s.uid
    case Unresolved => false
  }

  /** Whether an ACE takes part in access checks of a subject at all. */
  predicate Applicable(ace: PreparedAce, s: Subject) {
    && !Has(ace.flags, INHERIT_ONLY)
    && (ace.aceType == ALLOWED_TYPE || ace.aceType == DENIED_TYPE)
    && AppliesToSubject(ace, s)
  }

  datatype Verdict = Silent | Allow | Deny

  /** What the first applicable ACE that mentions bit `b` says about it. */
  function FirstMatch(acl: seq<PreparedAce>, s: Subject, b: nat): Verdict {
    if acl == [] then Silent
    else if Applicable(acl[0], s) && Has(acl[0].mask, b) then
      if acl[0].aceType == DENIED_TYPE then Deny else Allow
    else FirstMatch(acl[1..], s, b)
  }

  ghost predicate SomeDenied(acl: seq<PreparedAce>, s: Subject, req: nat) {
    exists b: nat :: Has(req, b) && FirstMatch(acl, s, b) == Deny
  }

  ghost predicate AllAllowed(acl: seq<PreparedAce>, s: Subject, req: nat) {
    forall b: nat :: Has(req, b) ==> FirstMatch(acl, s, b) == Allow
  }

  /** The rule: denied if a requested bit is denied, granted if all of a nonempty request are, else undecided. */
  ghost function Decision(acl: seq<PreparedAce>, s: Subject, req: nat): int {
    if SomeDenied(acl, s, req) then -EACCES
    else if req != 0 && AllAllowed(acl, s, req) then 0
    else 1
  }

  lemma {:induction false} FirstMatchAppend(acl: seq<PreparedAce>, ace: PreparedAce, s: Subject, b: nat)
    ensures FirstMatch(acl + [ace], s, b) ==
            if FirstMatch(acl, s, b) != Silent then FirstMatch(acl, s, b) else FirstMatch([ace], s, b)
    decreases |acl|
  {
    if acl == [] {
      assert acl + [ace] == [ace];
    } else {
      assert (acl + [ace])[1..] == acl[1..] + [ace];
      FirstMatchAppend(acl[1..], ace, s, b);
    }
  }

  lemma {:induction false} FirstMatchConcat(acl: seq<PreparedAce>, more: seq<PreparedAce>, s: Subject, b: nat)
    ensures FirstMatch(acl, s, b) != Silent ==> FirstMatch(acl + more, s, b) == FirstMatch(acl, s, b)
    decreases |acl|
  {
    if acl != [] {
      assert (acl + more)[1..] == acl[1..] + more;
      FirstMatchConcat(acl[1..], more, s, b);
    }
  }

  /** `remaining` are the requested bits on which the ACL is silent so far; the others it allows. */
  ghost predicate Tracked(acl: seq<PreparedAce>, s: Subject, req: nat, remaining: nat) {
    && (forall b: nat :: Has(remaining, b) ==> Has(req, b))
    && (req != 0 ==> remaining != 0)
    && forall b: nat :: Has(req, b) ==> FirstMatch(acl, s, b) == if Has(remaining, b) then Silent else Allow
  }

  lemma TrackSkip(acl: seq<PreparedAce>, ace: PreparedAce, s: Subject, req: nat, remaining: nat)
    requires Tracked(acl, s, req, remaining) && (!Applicable(ace, s) || And(ace.mask, remaining) == 0)
    ensures Tracked(acl + [ace], s, req, remaining)
  {
    forall b: nat | Has(req, b)
      ensures FirstMatch(acl + [ace], s, b) == if Has(remaining, b) then Silent else Allow
    {
      FirstMatchAppend(acl, ace, s, b);
      AndBits(ace.mask, remaining, b);
      ZeroHasNone(b);
    }
  }

  lemma TrackAllow(acl: seq<PreparedAce>, ace: PreparedAce, s: Subject, req: nat, remaining: nat, left: nat)
    requires Tracked(acl, s, req, remaining) && Applicable(ace, s) && ace.aceType == ALLOWED_TYPE
    requires And(ace.mask, remaining) != 0 && left == Clear(remaining, And(ace.mask, remaining))
    ensures left != 0 ==> Tracked(acl + [ace], s, req, left)
    ensures left == 0 ==> req != 0 && AllAllowed(acl + [ace], s, req)
  {
    forall b: nat
      ensures Has(left, b) <==> Has(remaining, b) && !Has(ace.mask, b)
    {
      AndBits(ace.mask, remaining, b);
      ClearBits(remaining, And(ace.mask, remaining), b);
    }
    forall b: nat | Has(req, b)
      ensures FirstMatch(acl + [ace], s, b) == if Has(left, b) then Silent else Allow
      ensures left == 0 ==> !Has(left, b)
    {
      FirstMatchAppend(acl, ace, s, b);
      ZeroHasNone(b);
    }
    var some := LowestBit(And(ace.mask, remaining));
    AndBits(ace.mask, remaining, some);
    ZeroHasNone(some);
  }

  lemma TrackDeny(acl: seq<PreparedAce>, ace: PreparedAce, s: Subject, req: nat, remaining: nat)
    requires Tracked(acl, s, req, remaining) && Applicable(ace, s) && ace.aceType == DENIED_TYPE
    requires And(ace.mask, remaining) != 0
    ensures SomeDenied(acl + [ace], s, req)
  {
    var b := LowestBit(And(ace.mask, remaining));
    AndBits(ace.mask, remaining, b);
    FirstMatchAppend(acl, ace, s, b);
  }

  /** A decision reached on the first ACEs is the decision on the whole ACL. */
  lemma DecidedEarly(acl: seq<PreparedAce>, more: seq<PreparedAce>, s: Subject, req: nat)
    ensures SomeDenied(acl, s, req) ==> SomeDenied(acl + more, s, req)
    ensures AllAllowed(acl, s, req) ==> AllAllowed(acl + more, s, req)
  {
    forall b: nat | Has(req, b)
      ensures FirstMatch(acl, s, b) != Silent ==> FirstMatch(acl + more, s, b) == FirstMatch(acl, s, b)
    {
      FirstMatchConcat(acl, more, s, b);
    }
  }

  lemma Undecided(acl: seq<PreparedAce>, s: Subject, req: nat, remaining: nat)
    requires Tracked(acl, s, req, remaining)
    ensures Decision(acl, s, req) == 1
  {
    if req != 0 {
      var b := LowestBit(remaining);
      assert FirstMatch(acl, s, b) == Silent;
    }
  }

  /** All groups a subject is in; its primary group is one of them like any other. */
  function GroupsOf(s: Subject): set<nat> { {s.gid} + s.groups }

  predicate SameStanding(s: Subject, t: Subject) {
    s.uid == t.uid && GroupsOf(s) == GroupsOf(t) && s.fileUid == t.fileUid && s.fileGid == t.fileGid
  }

  lemma {:induction false} SameStandingSameMatch(acl: seq<PreparedAce>, s: Subject, t: Subject, b: nat)
    requires SameStanding(s, t)
    ensures FirstMatch(acl, s, b) == FirstMatch(acl, t, b)
    decreases |acl|
  {
    if acl != [] {
      assert forall g :: g in GroupsOf(s) <==> g in GroupsOf(t);
      SameStandingSameMatch(acl[1..], s, t, b);
    }
  }

  /** Which of its groups is the primary one makes no difference to a subject. */
  lemma SameStandingDecides(acl: seq<PreparedAce>, s: Subject, t: Subject, req: nat)
    requires SameStanding(s, t)
    ensures Decision(acl, s, req) == Decision(acl, t, req)
  {
    forall b: nat ensures FirstMatch(acl, s, b) == FirstMatch(acl, t, b) {
      SameStandingSameMatch(acl, s, t, b);
    }
  }

  /** Flag bits 0x8 and 0x40. */
  lemma FlagBits(flags: nat)
    ensures Has(flags, INHERIT_ONLY) <==> flags / 8 % 2 == 1
    ensures Has(flags, IDENTIFIER_GROUP) <==> flags / 64 % 2 == 1
  {
    assert flags / 2 / 2 / 2 == flags / 8 && flags / 8 / 2 / 2 / 2 == flags / 64;
    assert Has(flags, 3) == Has(flags / 2, 2) == Has(flags / 2 / 2, 1) == Has(flags / 2 / 2 / 2, 0);
    assert Has(flags, 6) == Has(flags / 2, 5) == Has(flags / 2 / 2, 4) == Has(flags / 8, 3);
    assert Has(flags / 8, 3) == Has(flags / 8 / 2, 2) == Has(flags / 8 / 2 / 2, 1) == Has(flags / 64, 0);
  }

  /** Type 0 grants, type 1 denies, other types and entries that are only inherited say nothing. */
  function SayOf(aceType: nat, flags: nat): int {
    if flags / 8 % 2 == 1 || aceType > 1 then 1 else if aceType == 0 then 0 else -13
  }

  /** A list of one entry says what the entry says to those it is meant for, and nothing to anybody else. */
  lemma SingleEntryExactly(ace: PreparedAce, s: Subject, req: nat)
    requires req != 0 && forall b: nat :: Has(req, b) ==> Has(ace.mask, b)
    ensures var say := SayOf(ace.aceType, ace.flags);
            Decision([ace], s, req) ==
            match ace.principal
            case Everyone => say
            case Owner => if s.uid == s.fileUid then say else 1
            case Group => if s.fileGid in GroupsOf(s) then say else 1
            case Uid(uid) => if uid == s.uid then say else 1
            case Gid(gid) => if gid in GroupsOf(s) then say else 1
            case Unresolved => 1
  {
    FlagBits(ace.flags);
    var some := LowestBit(req);
    assert [ace][1..] == [];
    var v := if !Applicable(ace, s) then Silent else if ace.aceType == DENIED_TYPE then Deny else Allow;
    forall b: nat | Has(req, b) ensures FirstMatch([ace], s, b) == v {
    }
  }

  /** The ACL walk: clear allowed bits until none remain, stop at the first denied one. */
  method Eval(acl: seq<PreparedAce>, s: Subject, reqmask: nat) returns (rc: int)
    ensures rc == Decision(acl, s, reqmask)
  {
    if |acl| == 0 {
      Undecided(acl, s, reqmask, reqmask);
      return 1;
    }
    var remaining := reqmask;
    for i := 0 to |acl|
      invariant Tracked(acl[..i], s, reqmask, remaining)
    {
      var ace := acl[i];
      assert acl[..i + 1] == acl[..i] + [ace];
      assert acl == acl[..i + 1] + acl[i + 1..];
      DecidedEarly(acl[..i + 1], acl[i + 1..], s, reqmask);
      var bits := And(ace.mask, remaining);
      if Has(ace.flags, INHERIT_ONLY) {
        TrackSkip(acl[..i], ace, s, reqmask, remaining);
      } else if ace.aceType != ALLOWED_TYPE && ace.aceType != DENIED_TYPE {
        TrackSkip(acl[..i], ace, s, reqmask, remaining);
      } else if !AppliesToSubject(ace, s) {
        TrackSkip(acl[..i], ace, s, reqmask, remaining);
      } else if bits == 0 {
        TrackSkip(acl[..i], ace, s, reqmask, remaining);
      } else if ace.aceType == DENIED_TYPE {
        TrackDeny(acl[..i], ace, s, reqmask, remaining);
        return -EACCES;
      } else {
        TrackAllow(acl[..i], ace, s, reqmask, remaining, Clear(remaining, bits));
        remaining := Clear(remaining, bits);
        if remaining == 0 {
          return 0;
        }
      }
    }
    assert acl[..|acl|] == acl;
    Undecided(acl, s, reqmask, remaining);
    rc := 1;
  }
}
