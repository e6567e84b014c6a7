/** The XDR form of NFSv4 ACLs: the decoder, and the wire format it accepts. */
module AclXdr {
  import opened FileBytes

  const EINVAL := -22
  const EOVERFLOW := -75

  const MAX_XDR := 32 * 1024
  const MAX_ACES := 4096
  const MAX_WHO_LEN := 256
  const ALARM_TYPE := 3

  const WORD := 0x1_0000_0000

  datatype Ace = Ace(aceType: nat, flags: nat, mask: nat, who: Bytes)

  datatype Result = Ok(aces: seq<Ace>) | Err(code: int)

  // 32-bit big-endian words

  function Be32(v: nat): (b: Bytes)
    requires v < WORD
    ensures |b| == 4
  {
    [(v / 256 / 256 / 256) as Byte, (v / 256 / 256 % 256) as Byte, (v / 256 % 256) as Byte, (v % 256) as Byte]
  }

  /** The word at position `i`. */
  function U32(b: Bytes, i: nat): (v: nat)
    requires i + 4 <= |b|
    ensures v < WORD
  {
    ((b[i] as nat * 256 + b[i + 1] as nat) * 256 + b[i + 2] as nat) * 256 + b[i + 3] as nat
  }

  lemma WordRoundTrip(b: Bytes, i: nat, v: nat)
    requires v < WORD && i + 4 <= |b| && b[i..i + 4] == Be32(v)
    ensures U32(b, i) == v
  {
    var w := b[i..i + 4];
    assert b[i] == w[0] && b[i + 1] == w[1] && b[i + 2] == w[2] && b[i + 3] == w[3];
  }

  /** The most significant byte comes first. */
  lemma WordValue(b: Bytes, i: nat)
    requires i + 4 <= |b|
    ensures U32(b, i) == 16777216 * b[i] as nat + 65536 * b[i + 1] as nat + 256 * b[i + 2] as nat + b[i + 3] as nat
  {
  }

  lemma WordIsBytes(b: Bytes, i: nat)
    requires i + 4 <= |b|
    ensures Be32(U32(b, i)) == b[i..i + 4]
  {
    var v := U32(b, i);
    assert v / 256 == (b[i] as nat * 256 + b[i + 1] as nat) * 256 + b[i + 2] as nat;
    assert v / 256 / 256 == b[i] as nat * 256 + b[i + 1] as nat;
    assert Be32(v) == [b[i], b[i + 1], b[i + 2], b[i + 3]];
  }

  // The wire format

  /** How many bytes fill `n` up to a multiple of four. */
  function Pad(n: nat): (p: nat)
    ensures p < 4
  {
    if n % 4 == 0 then 0 else 4 - n % 4
  }

  lemma PadExactly(n: nat)
    ensures n + Pad(n) == (n + 3) / 4 * 4
  {
  }

  function AceSize(ace: Ace): nat { 16 + |ace.who| + Pad(|ace.who|) }

  /** What the decoder lets through: a known type and a name of at most 256 bytes. */
  predicate Legal(ace: Ace) {
    && ace.aceType <= ALARM_TYPE && ace.flags < WORD && ace.mask < WORD
    && |ace.who| <= MAX_WHO_LEN
  }

  predicate AllLegal(aces: seq<Ace>) {
    forall i :: 0 <= i < |aces| ==> Legal(aces[i])
  }

  /** `b` starts with the ACE, whatever its padding bytes hold. */
  predicate StartsWith(b: Bytes, ace: Ace) {
    && |b| >= AceSize(ace)
    && U32(b, 0) == ace.aceType && U32(b, 4) == ace.flags && U32(b, 8) == ace.mask
    && U32(b, 12) == |ace.who| && b[16..16 + |ace.who|] == ace.who
  }

  /** `b` starts with all these ACEs, one after the other. */
  predicate Carries(b: Bytes, aces: seq<Ace>)
    decreases |aces|
  {
    aces == [] || (StartsWith(b, aces[0]) && Carries(b[AceSize(aces[0])..], aces[1..]))
  }

  /** The canonical encoding, padded with zero bytes. */
  function EncodeAce(ace: Ace): (b: Bytes)
    requires Legal(ace)
    ensures |b| == AceSize(ace)
  {
    Be32(ace.aceType) + Be32(ace.flags) + Be32(ace.mask) + Be32(|ace.who|) + ace.who + Padding(ace)
  }

  function EncodeAces(aces: seq<Ace>): Bytes
    requires AllLegal(aces)
  {
    if aces == [] then [] else EncodeAce(aces[0]) + EncodeAces(aces[1..])
  }

  function Encode(aces: seq<Ace>): Bytes
    requires AllLegal(aces) && |aces| < WORD
  {
    Be32(|aces|) + EncodeAces(aces)
  }

  // What decoding means

  datatype Step = Read(ace: Ace, rest: Bytes) | Bad(code: int)

  function ParseAce(b: Bytes): Step {
    if |b| < 16 then Bad(EINVAL)
    else
      var len := U32(b, 12);
      if len > MAX_WHO_LEN then Bad(EOVERFLOW)
      else if |b| - 16 < len + Pad(len) then Bad(EINVAL)
      else if U32(b, 0) > ALARM_TYPE then Bad(EINVAL)
      else Read(Ace(U32(b, 0), U32(b, 4), U32(b, 8), b[16..16 + len]), b[16 + len + Pad(len)..])
  }

  /** A single ACE is accepted exactly when the bytes start with it and it is legal. */
  lemma ParseAceExact(b: Bytes, ace: Ace)
    ensures ParseAce(b).Read? && ParseAce(b).ace == ace <==> Legal(ace) && StartsWith(b, ace)
    ensures Legal(ace) && StartsWith(b, ace) ==> ParseAce(b) == Read(ace, b[AceSize(ace)..])
  {
    if Legal(ace) && StartsWith(b, ace) {
      assert ParseAce(b).Read?;
    }
  }

  function ParseAces(b: Bytes, n: nat): Result
    decreases n
  {
    if n == 0 then Ok([])
    else
      match ParseAce(b)
      case Bad(code) => Err(code)
      case Read(ace, rest) => Prepend([ace], ParseAces(rest, n - 1))
  }

  function Prepend(aces: seq<Ace>, r: Result): Result {
    if r.Err? then r else Ok(aces + r.aces)
  }

  function Parse(b: Bytes): Result {
    if |b| < 4 then Err(EINVAL)
    else if |b| > MAX_XDR then Err(EOVERFLOW)
    else if U32(b, 0) > MAX_ACES then Err(EOVERFLOW)
    else ParseAces(b[4..], U32(b, 0))
  }

  lemma {:induction false} ParseAcesExact(b: Bytes, aces: seq<Ace>)
    ensures ParseAces(b, |aces|) == Ok(aces) <==> AllLegal(aces) && Carries(b, aces)
    decreases |aces|
  {
    if aces != [] {
      var ace, rest := aces[0], aces[1..];
      assert aces == [ace] + rest;
      assert AllLegal(aces) <==> Legal(ace) && AllLegal(rest);
      ParseAceExact(b, ace);
      match ParseAce(b)
      case Bad(_) =>
      case Read(read, tail) =>
        var r := ParseAces(tail, |rest|);
        if r.Ok? {
          assert ([read] + r.aces)[0] == read && ([read] + r.aces)[1..] == r.aces;
        }
        if read == ace {
          ParseAcesExact(tail, rest);
        }
    }
  }

  lemma {:induction false} ParseAcesCount(b: Bytes, n: nat)
    ensures ParseAces(b, n).Ok? ==> |ParseAces(b, n).aces| == n
    decreases n
  {
    if n != 0 && ParseAce(b).Read? {
      ParseAcesCount(ParseAce(b).rest, n - 1);
    }
  }

  /** The limits in numbers: four types, names of 256 bytes, 32-bit words. */
  lemma LegalExactly(ace: Ace)
    ensures Legal(ace) <==> ace.aceType <= 3 && ace.flags <= 0xffff_ffff && ace.mask <= 0xffff_ffff && |ace.who| <= 256
  {
  }

  /** Buffers that are too short or announce too much are refused before any entry is read. */
  lemma RefusedAtOnce(b: Bytes)
    ensures |b| < 4 ==> Parse(b) == Err(-22)
    ensures |b| > 32768 || (|b| >= 4 && U32(b, 0) > 4096) ==> Parse(b) == Err(-75)
  {
  }

  /**
   * An entry is refused exactly when its fixed part or its padded name is cut off or its type is unknown,
   * which is an invalid argument, or when its name is too long, which is an overflow and is noticed first.
   */
  lemma RefusedEntryExactly(b: Bytes)
    ensures ParseAce(b) == Bad(-75) <==> |b| >= 16 && U32(b, 12) > 256
    ensures ParseAce(b) == Bad(-22) <==>
            || |b| < 16
            || (U32(b, 12) <= 256 && (U32(b, 0) > 3 || |b| < 16 + (U32(b, 12) + 3) / 4 * 4))
    ensures ParseAce(b).Read? || ParseAce(b) == Bad(-75) || ParseAce(b) == Bad(-22)
  {
    if |b| >= 16 {
      PadExactly(U32(b, 12));
    }
  }

  /** Exactly the buffers that carry a legal ACL within the limits are accepted, and with that ACL. */
  lemma AcceptedExactly(b: Bytes, aces: seq<Ace>)
    ensures Parse(b) == Ok(aces) <==>
            && 4 <= |b| <= 32768 && U32(b, 0) == |aces| <= 4096
            && AllLegal(aces) && Carries(b[4..], aces)
  {
    if 4 <= |b| <= MAX_XDR && U32(b, 0) <= MAX_ACES {
      ParseAcesCount(b[4..], U32(b, 0));
      if U32(b, 0) == |aces| {
        ParseAcesExact(b[4..], aces);
      }
    }
  }

  // Round trips

  lemma EncodedAceStarts(ace: Ace, tail: Bytes)
    requires Legal(ace)
    ensures StartsWith(EncodeAce(ace) + tail, ace)
  {
    var b := EncodeAce(ace) + tail;
    assert b[0..4] == Be32(ace.aceType);
    assert b[4..8] == Be32(ace.flags);
    assert b[8..12] == Be32(ace.mask);
    assert b[12..16] == Be32(|ace.who|);
    WordRoundTrip(b, 0, ace.aceType);
    WordRoundTrip(b, 4, ace.flags);
    WordRoundTrip(b, 8, ace.mask);
    WordRoundTrip(b, 12, |ace.who|);
    assert b[16..16 + |ace.who|] == ace.who;
  }

  lemma {:induction false} EncodedCarries(aces: seq<Ace>, tail: Bytes)
    requires AllLegal(aces)
    ensures Carries(EncodeAces(aces) + tail, aces)
    decreases |aces|
  {
    if aces != [] {
      var first, rest := EncodeAce(aces[0]), EncodeAces(aces[1..]);
      assert EncodeAces(aces) + tail == first + (rest + tail);
      EncodedAceStarts(aces[0], rest + tail);
      assert (first + (rest + tail))[|first|..] == rest + tail;
      EncodedCarries(aces[1..], tail);
    }
  }

  /** Every legal ACL that fits is decoded back, and bytes after it are ignored. */
  lemma RoundTrip(aces: seq<Ace>, tail: Bytes)
    requires AllLegal(aces) && |aces| <= MAX_ACES && |Encode(aces) + tail| <= MAX_XDR
    ensures Parse(Encode(aces) + tail) == Ok(aces)
  {
    var b := Encode(aces) + tail;
    assert b[0..4] == Be32(|aces|);
    WordRoundTrip(b, 0, |aces|);
    assert b[4..] == EncodeAces(aces) + tail;
    EncodedCarries(aces, tail);
    AcceptedExactly(b, aces);
  }

  /** A buffer carries at most one ACL of a given length. */
  lemma CarriesOne(b: Bytes, x: seq<Ace>, y: seq<Ace>)
    requires AllLegal(x) && AllLegal(y) && |x| == |y|
    requires Carries(b, x) && Carries(b, y)
    ensures x == y
  {
    ParseAcesExact(b, x);
    ParseAcesExact(b, y);
  }

  function Padding(ace: Ace): Bytes { seq(Pad(|ace.who|), _ => 0) }

  predicate ZeroPadded(b: Bytes, aces: seq<Ace>)
    requires Carries(b, aces)
    decreases |aces|
  {
    aces == [] ||
    (b[16 + |aces[0].who|..AceSize(aces[0])] == Padding(aces[0]) && ZeroPadded(b[AceSize(aces[0])..], aces[1..]))
  }

  /** Re-encoding an ACE gives back the bytes it was read from, with its padding zeroed. */
  lemma ReencodeAce(b: Bytes, ace: Ace)
    requires Legal(ace) && StartsWith(b, ace)
    ensures EncodeAce(ace) == b[..16 + |ace.who|] + Padding(ace)
  {
    WordIsBytes(b, 0);
    WordIsBytes(b, 4);
    WordIsBytes(b, 8);
    WordIsBytes(b, 12);
    var w := |ace.who|;
    assert b[..16 + w] == b[0..4] + b[4..8] + b[8..12] + b[12..16] + b[16..16 + w];
  }

  lemma PrefixSplit(b: Bytes, x: Bytes, y: Bytes)
    ensures x + y <= b <==> x <= b && y <= b[|x|..]
  {
    if x <= b && y <= b[|x|..] {
      assert b == x + b[|x|..];
    }
    if x + y <= b {
      assert b[..|x|] == (x + y)[..|x|] == x;
      assert b[|x|..][..|y|] == (x + y)[|x|..] == y;
    }
  }

  /** The canonical encoding is the only carrier with zero padding; all others differ from it just there. */
  lemma {:induction false} Canonical(b: Bytes, aces: seq<Ace>)
    requires AllLegal(aces)
    ensures EncodeAces(aces) <= b <==> Carries(b, aces) && ZeroPadded(b, aces)
    decreases |aces|
  {
    if aces != [] {
      var ace, rest := aces[0], aces[1..];
      CanonicalAce(b, ace);
      PrefixSplit(b, EncodeAce(ace), EncodeAces(rest));
      if StartsWith(b, ace) {
        Canonical(b[AceSize(ace)..], rest);
      }
    }
  }

  /** The bytes that the ACEs were read from, with all padding set to zero. */
  function Zeroed(b: Bytes, aces: seq<Ace>): Bytes
    requires Carries(b, aces)
    decreases |aces|
  {
    if aces == [] then []
    else
      b[..16 + |aces[0].who|] + Padding(aces[0]) + Zeroed(b[AceSize(aces[0])..], aces[1..])
  }

  /** Re-encoding what a buffer carries gives the bytes it was read from, up to the padding. */
  lemma {:induction false} Reencode(b: Bytes, aces: seq<Ace>)
    requires AllLegal(aces) && Carries(b, aces)
    ensures EncodeAces(aces) == Zeroed(b, aces) && |EncodeAces(aces)| <= |b|
    decreases |aces|
  {
    if aces != [] {
      ReencodeAce(b, aces[0]);
      Reencode(b[AceSize(aces[0])..], aces[1..]);
    }
  }

  /** An accepted buffer starts with the encoding of what was read from it, up to the padding. */
  lemma AcceptedReencodes(b: Bytes, aces: seq<Ace>)
    requires Parse(b) == Ok(aces)
    ensures AllLegal(aces) && |aces| < WORD && |b| >= 4 && Carries(b[4..], aces)
    ensures Encode(aces) == b[..4] + Zeroed(b[4..], aces) && |Encode(aces)| <= |b|
  {
    AcceptedExactly(b, aces);
    Reencode(b[4..], aces);
    WordIsBytes(b, 0);
  }

  lemma CanonicalAce(b: Bytes, ace: Ace)
    requires Legal(ace)
    ensures EncodeAce(ace) <= b <==> StartsWith(b, ace) && b[16 + |ace.who|..AceSize(ace)] == Padding(ace)
  {
    var w := 16 + |ace.who|;
    if EncodeAce(ace) <= b {
      assert b == EncodeAce(ace) + b[AceSize(ace)..];
      EncodedAceStarts(ace, b[AceSize(ace)..]);
    }
    if StartsWith(b, ace) {
      ReencodeAce(b, ace);
      assert b[..AceSize(ace)] == b[..w] + b[w..AceSize(ace)];
      assert EncodeAce(ace)[w..] == Padding(ace);
    }
  }

  // The decoder

  /** One round of the loop: read the ACE at `p` and move behind its padding. */
  method DecodeAce(b: Bytes, p: nat) returns (one: Step, next: nat)
    requires p <= |b|
    ensures one == ParseAce(b[p..])
    ensures one.Read? ==> p <= next <= |b| && one.rest == b[next..]
  {
    var rem := |b| - p;
    next := p;
    if rem < 16 {
      return Bad(EINVAL), next;
    }
    ghost var at := b[p..];
    var t := U32(b, p);
    var flags := U32(b, p + 4);
    var mask := U32(b, p + 8);
    var whoLen := U32(b, p + 12);
    if whoLen > MAX_WHO_LEN {
      return Bad(EOVERFLOW), next;
    }
    if rem - 16 < whoLen {
      return Bad(EINVAL), next;
    }
    var who := b[p + 16..p + 16 + whoLen];
    assert who == at[16..16 + whoLen];
    if rem - 16 < whoLen + Pad(whoLen) {
      return Bad(EINVAL), next;
    }
    next := p + 16 + whoLen + Pad(whoLen);
    assert b[next..] == at[16 + whoLen + Pad(whoLen)..];
    if t > ALARM_TYPE {
      return Bad(EINVAL), next;
    }
    one := Read(Ace(t, flags, mask, who), b[next..]);
  }

  predicate Parses(b: Bytes, n: nat, r: Result) { r == ParseAces(b, n) }

  /** With `aces` read so far, whatever the next `k` parse to gives the whole result. */
  ghost predicate Remains(aces: seq<Ace>, rest: Bytes, k: nat, whole: Result) {
    forall r :: Parses(rest, k, r) ==> Prepend(aces, r) == whole
  }

  lemma ReadOne(aces: seq<Ace>, b: Bytes, k: nat, whole: Result)
    requires Remains(aces, b, k + 1, whole)
    ensures ParseAce(b).Bad? ==> whole == Err(ParseAce(b).code)
    ensures ParseAce(b).Read? ==> Remains(aces + [ParseAce(b).ace], ParseAce(b).rest, k, whole)
  {
    assert Parses(b, k + 1, ParseAces(b, k + 1));
    if ParseAce(b).Read? {
      var r := ParseAces(ParseAce(b).rest, k);
      if r.Ok? {
        assert aces + ([ParseAce(b).ace] + r.aces) == (aces + [ParseAce(b).ace]) + r.aces;
      }
    }
  }

  lemma ReadNone(b: Bytes, n: nat)
    ensures Remains([], b, n, ParseAces(b, n))
  {
    var r := ParseAces(b, n);
    assert r.Ok? ==> [] + r.aces == r.aces;
  }

  lemma ReadAll(aces: seq<Ace>, b: Bytes, whole: Result)
    requires Remains(aces, b, 0, whole)
    ensures whole == Ok(aces)
  {
    assert Parses(b, 0, Ok([]));
    assert aces + [] == aces;
  }

  /** The round of the loop seen from the loop: only what it leaves to be read. */
  method DecodeNext(b: Bytes, p: nat, ghost aces: seq<Ace>, ghost k: nat, ghost whole: Result)
    returns (one: Step, next: nat)
    requires p <= |b| && Remains(aces, b[p..], k + 1, whole)
    ensures one.Bad? ==> whole == Err(one.code)
    ensures one.Read? ==> p <= next <= |b| && Remains(aces + [one.ace], b[next..], k, whole)
  {
    ReadOne(aces, b[p..], k, whole);
    one, next := DecodeAce(b, p);
  }

  method DecodeAces(b: Bytes, n: nat) returns (r: Result)
    requires |b| >= 4
    ensures r == ParseAces(b[4..], n)
  {
    ghost var whole := ParseAces(b[4..], n);
    ReadNone(b[4..], n);
    var p, aces := 4, [];
    for i := 0 to n
      invariant 4 <= p <= |b|
      invariant Remains(aces, b[p..], n - i, whole)
    {
      var one, next := DecodeNext(b, p, aces, n - i - 1, whole);
      if one.Bad? {
        return Err(one.code);
      }
      p, aces := next, aces + [one.ace];
    }
    ReadAll(aces, b[p..], whole);
    r := Ok(aces);
  }

  method Decode(b: Bytes) returns (r: Result)
    ensures r == Parse(b)
  {
    if |b| < 4 {
      return Err(EINVAL);
    }
    if |b| > MAX_XDR {
      return Err(EOVERFLOW);
    }
    var n := U32(b, 0);
    if n > MAX_ACES {
      return Err(EOVERFLOW);
    }
    r := DecodeAces(b, n);
  }
}
