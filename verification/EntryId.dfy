/** Entry ids as strings and as the three numbers they are made of. */
module EntryId {
  import opened Options

  const ROOT_ID := "root"
  const WORD := 0x1_0000_0000

  datatype Id = Id(counter: nat, timestamp: nat, node: nat) {
    predicate Valid() { counter < WORD && timestamp < WORD && node < WORD }
  }

  // Hexadecimal numbers

  predicate IsUpper(c: char) { '0' <= c <= '9' || 'A' <= c <= 'F' }

  predicate IsHex(c: char) { IsUpper(c) || 'a' <= c <= 'f' }

  function DigitValue(c: char): (v: nat)
    ensures v < 16
  {
    if '0' <= c <= '9' then (c - '0') as nat
    else if 'A' <= c <= 'F' then (c - 'A') as nat + 10
    else if 'a' <= c <= 'f' then (c - 'a') as nat + 10
    else 0
  }

  function Digit(v: nat): (c: char)
    requires v < 16
    ensures IsUpper(c) && DigitValue(c) == v
    ensures v != 0 ==> c != '0'
  {
    if v < 10 then '0' + v as char else 'A' + (v - 10) as char
  }

  /** The digits in the order of their values, in either case. */
  lemma DigitsInOrder(v: nat)
    requires v < 16
    ensures IsHex("0123456789ABCDEF"[v]) && DigitValue("0123456789ABCDEF"[v]) == v && Digit(v) == "0123456789ABCDEF"[v]
    ensures IsHex("0123456789abcdef"[v]) && DigitValue("0123456789abcdef"[v]) == v
  {
  }

  lemma OnlyDigits(c: char)
    ensures IsHex(c) <==> c in "0123456789ABCDEFabcdef"
  {
    if IsHex(c) {
      var v := DigitValue(c);
      assert c == "0123456789ABCDEF"[v] || c == "0123456789abcdef"[v];
      assert "0123456789ABCDEFabcdef"[if '0' <= c <= '9' || 'A' <= c <= 'F' then v else v + 6] == c;
    }
  }

  predicate AllHex(s: string) { forall i :: 0 <= i < |s| ==> IsHex(s[i]) }

  function Hex(v: nat): (s: string)
    ensures s != [] && AllHex(s)
  {
    if v < 16 then [Digit(v)] else Hex(v / 16) + [Digit(v % 16)]
  }

  function Value(s: string): nat {
    if s == [] then 0 else Value(s[..|s| - 1]) * 16 + DigitValue(s[|s| - 1])
  }

  /** Storing a number in 32 bits. */
  function Low32(v: nat): (r: nat)
    ensures r < WORD
  {
    if v < WORD then v else v % WORD
  }

  lemma {:induction false} HexRoundTrip(v: nat)
    ensures Value(Hex(v)) == v
  {
    if v >= 16 {
      HexRoundTrip(v / 16);
      assert Hex(v)[..|Hex(v)| - 1] == Hex(v / 16);
    } else {
      assert Hex(v)[..0] == [];
    }
  }

  /** Upper case and no needless leading zero. */
  predicate Canonical(s: string) {
    && s != []
    && (forall i :: 0 <= i < |s| ==> IsUpper(s[i]))
    && (|s| > 1 ==> s[0] != '0')
  }

  lemma {:induction false} HexIsCanonical(v: nat)
    ensures Canonical(Hex(v)) && (v != 0 ==> Hex(v)[0] != '0')
  {
    if v >= 16 {
      HexIsCanonical(v / 16);
      assert Hex(v)[0] == Hex(v / 16)[0];
    }
  }

  lemma UpperDigit(c: char)
    requires IsUpper(c)
    ensures Digit(DigitValue(c)) == c
  {
  }

  lemma HexStep(x: nat, c: char)
    requires x > 0 && IsUpper(c)
    ensures Hex(x * 16 + DigitValue(c)) == Hex(x) + [c]
  {
    UpperDigit(c);
    var v := x * 16 + DigitValue(c);
    assert v / 16 == x && v % 16 == DigitValue(c);
  }

  lemma CanonicalStep(front: string, last: char, s: string)
    requires Hex(Value(front)) == front && Value(front) > 0 && IsUpper(last) && s == front + [last]
    ensures Hex(Value(s)) == s && Value(s) > 0
  {
    HexStep(Value(front), last);
    assert s[..|s| - 1] == front;
  }

  lemma {:induction false} CanonicalIsHex(s: string)
    requires Canonical(s)
    ensures Hex(Value(s)) == s
    ensures s[0] != '0' ==> Value(s) != 0
    decreases |s|
  {
    var front, last := s[..|s| - 1], s[|s| - 1];
    if front == [] {
      UpperDigit(last);
      assert s == [last];
    } else {
      CanonicalFront(s);
      CanonicalIsHex(front);
      assert s == front + [last];
      CanonicalStep(front, last, s);
    }
  }

  lemma CanonicalFront(s: string)
    requires Canonical(s) && |s| > 1
    ensures Canonical(s[..|s| - 1]) && s[..|s| - 1][0] == s[0] != '0'
  {
  }

  function Pow16(k: nat): nat { if k == 0 then 1 else Pow16(k - 1) * 16 }

  lemma {:induction false} HexLength(v: nat, k: nat)
    requires k > 0
    ensures |Hex(v)| <= k <==> v < Pow16(k)
    decreases k
  {
    if k > 1 && v >= 16 {
      HexLength(v / 16, k - 1);
    }
    if k > 1 && v < 16 {
      PowGrows(k);
    }
  }

  lemma {:induction false} PowGrows(k: nat)
    ensures Pow16(k + 1) >= 16
  {
    if k > 0 { PowGrows(k - 1); }
  }

  lemma EightDigits(v: nat)
    ensures |Hex(v)| <= 8 <==> v < WORD
  {
    HexLength(v, 8);
    assert Pow16(4) == 0x1_0000;
    assert Pow16(8) == WORD;
  }

  // Entry ids

  function Join(a: string, b: string, c: string): string { a + ("-" + (b + ("-" + c))) }

  function Print(id: Id): string {
    if id == Id(0, 0, 0) then ROOT_ID else Join(Hex(id.counter), Hex(id.timestamp), Hex(id.node))
  }

  function DigitsLength(s: string): (n: nat)
    ensures n <= |s|
  {
    if s == [] || !IsHex(s[0]) then 0 else 1 + DigitsLength(s[1..])
  }

  /** Reads `k` numbers separated by dashes, each as far as its digits go and in 32 bits. */
  function Scan(s: string, k: nat): Option<seq<nat>> {
    if k == 0 then Some([])
    else
      var n := DigitsLength(s);
      var v := Low32(Value(s[..n]));
      if n == 0 then None
      else if k == 1 then Some([v])
      else if n == |s| || s[n] != '-' then None
      else match Scan(s[n + 1..], k - 1) case None => None case Some(vs) => Some([v] + vs)
  }

  function Parse(s: string): Option<Id> {
    if s == ROOT_ID then Some(Id(0, 0, 0))
    else
      match Scan(s, 3)
      case None => None
      case Some(vs) => if |vs| == 3 then Some(Id(vs[0], vs[1], vs[2])) else None
  }

  lemma {:induction false} DigitsThen(a: string, rest: string)
    requires AllHex(a) && (rest == [] || !IsHex(rest[0]))
    ensures DigitsLength(a + rest) == |a|
  {
    if a == [] {
      assert a + rest == rest;
    } else {
      assert (a + rest)[1..] == a[1..] + rest;
      DigitsThen(a[1..], rest);
    }
  }

  lemma ScanLast(a: string, tail: string)
    requires a != [] && AllHex(a) && (tail == [] || !IsHex(tail[0]))
    ensures Scan(a + tail, 1) == Some([Low32(Value(a))])
  {
    DigitsThen(a, tail);
    assert (a + tail)[..|a|] == a;
  }

  lemma ScanMore(a: string, rest: string, k: nat, vs: seq<nat>)
    requires a != [] && AllHex(a) && k > 0 && Scan(rest, k) == Some(vs)
    ensures Scan(a + ("-" + rest), k + 1) == Some([Low32(Value(a))] + vs)
  {
    var s := a + ("-" + rest);
    DigitsThen(a, "-" + rest);
    assert s[..|a|] == a && s[|a|] == '-' && s[|a| + 1..] == rest;
  }

  lemma ParseJoined(a: string, b: string, c: string)
    requires a != [] && AllHex(a) && b != [] && AllHex(b) && c != [] && AllHex(c)
    ensures Parse(Join(a, b, c)) == Some(Id(Low32(Value(a)), Low32(Value(b)), Low32(Value(c))))
  {
    assert c + [] == c;
    ParseThree(a, b, c, []);
  }

  /** What can follow the last number: nothing, or anything that is no digit. */
  predicate IsTail(tail: string) { tail == [] || !IsHex(tail[0]) }

  lemma NotRoot(a: string, rest: string)
    requires a != [] && AllHex(a)
    ensures a + rest != ROOT_ID
  {
    assert (a + rest)[0] == a[0];
  }

  lemma ScanThree(a: string, b: string, c: string, tail: string, k: nat, x: nat, y: nat, z: nat)
    requires a != [] && AllHex(a) && b != [] && AllHex(b) && c != [] && AllHex(c) && IsTail(tail)
    requires k == 3 && x == Low32(Value(a)) && y == Low32(Value(b)) && z == Low32(Value(c))
    ensures Scan(Join(a, b, c + tail), k) == Some([x, y, z])
  {
    ScanLast(c, tail);
    ScanMore(b, c + tail, k - 2, [z]);
    ScanMore(a, b + ("-" + (c + tail)), k - 1, [y] + [z]);
    assert [x] + ([y] + [z]) == [x, y, z];
  }

  lemma ParseThree(a: string, b: string, c: string, tail: string)
    requires a != [] && AllHex(a) && b != [] && AllHex(b) && c != [] && AllHex(c) && IsTail(tail)
    ensures Parse(Join(a, b, c + tail)) == Some(Id(Low32(Value(a)), Low32(Value(b)), Low32(Value(c))))
  {
    ScanThree(a, b, c, tail, 3, Low32(Value(a)), Low32(Value(b)), Low32(Value(c)));
    NotRoot(a, "-" + (b + ("-" + (c + tail))));
  }

  lemma Low32IsModulo(v: nat)
    ensures Low32(v) == v % 0x1_0000_0000
  {
  }

  /**
   * Three numbers between dashes are read as far as their digits go, each modulo 2^32 and whatever follows the
   * last one.
   */
  lemma ParseExact(a: string, b: string, c: string, tail: string)
    requires a != [] && AllHex(a) && b != [] && AllHex(b) && c != [] && AllHex(c) && IsTail(tail)
    ensures Parse(Join(a, b, c + tail)) ==
            Some(Id(Value(a) % 0x1_0000_0000, Value(b) % 0x1_0000_0000, Value(c) % 0x1_0000_0000))
  {
    ParseThree(a, b, c, tail);
    Low32IsModulo(Value(a));
    Low32IsModulo(Value(b));
    Low32IsModulo(Value(c));
  }

  lemma DigitsEnd(s: string)
    ensures AllHex(s[..DigitsLength(s)]) && IsTail(s[DigitsLength(s)..])
  {
    if s != [] && IsHex(s[0]) {
      DigitsEnd(s[1..]);
      var n := DigitsLength(s);
      assert s[1..][n - 1..] == s[n..];
      forall i | 0 <= i < n ensures IsHex(s[i]) {
        assert i > 0 ==> s[i] == s[1..][..n - 1][i - 1];
      }
    }
  }

  /** A number and what follows it. */
  ghost predicate IsNumber(s: string, a: string, rest: string) { s == a + rest && a != [] && AllHex(a) && IsTail(rest) }

  lemma ScanSplits(s: string, k: nat) returns (a: string, rest: string)
    requires k > 0 && Scan(s, k).Some?
    ensures IsNumber(s, a, rest)
    ensures k > 1 ==> rest != [] && rest[0] == '-' && Scan(rest[1..], k - 1).Some?
  {
    DigitsEnd(s);
    var n := DigitsLength(s);
    a, rest := s[..n], s[n..];
    assert k > 1 ==> rest[1..] == s[n + 1..];
  }

  ghost predicate IsThree(s: string, a: string, b: string, c: string, tail: string) {
    && a != [] && AllHex(a) && b != [] && AllHex(b) && c != [] && AllHex(c) && IsTail(tail)
    && s == Join(a, b, c + tail)
  }

  /** Exactly the root's name and three numbers between dashes are accepted. */
  lemma AcceptedExactly(s: string)
    ensures Parse(s).Some? <==> s == "root" || exists a, b, c, tail :: IsThree(s, a, b, c, tail)
  {
    if s != "root" && Parse(s).Some? {
      var a, rest := ScanSplits(s, 3);
      var b, more := ScanSplits(rest[1..], 2);
      var c, tail := ScanSplits(more[1..], 1);
      assert rest == "-" + rest[1..] && more == "-" + more[1..];
      assert IsThree(s, a, b, c, tail);
    }
    if a, b, c, tail :| IsThree(s, a, b, c, tail) {
      ParseExact(a, b, c, tail);
    }
  }

  lemma ParseValues(s: string, a: string, b: string, c: string, id: Id)
    requires a != [] && AllHex(a) && b != [] && AllHex(b) && c != [] && AllHex(c)
    requires s == Join(a, b, c) && id == Id(Value(a), Value(b), Value(c)) && id.Valid()
    ensures Parse(s) == Some(id)
  {
    ParseJoined(a, b, c);
  }

  lemma PrintValues(id: Id) returns (a: string, b: string, c: string)
    requires id != Id(0, 0, 0)
    ensures Print(id) == Join(a, b, c)
    ensures a != [] && AllHex(a) && b != [] && AllHex(b) && c != [] && AllHex(c)
    ensures id == Id(Value(a), Value(b), Value(c))
  {
    a, b, c := Hex(id.counter), Hex(id.timestamp), Hex(id.node);
    HexRoundTrip(id.counter);
    HexRoundTrip(id.timestamp);
    HexRoundTrip(id.node);
  }

  /** Printing and parsing an id gives it back, the root id included. */
  lemma RoundTrip(id: Id)
    requires id.Valid()
    ensures Parse(Print(id)) == Some(id)
    ensures Print(id) == "root" <==> id == Id(0, 0, 0)
  {
    if id != Id(0, 0, 0) {
      var s := Print(id);
      var a, b, c := PrintValues(id);
      ParseValues(s, a, b, c, id);
    }
  }

  /** Different ids have different strings, so that a lookup by string finds the right inode. */
  lemma PrintIsInjective(x: Id, y: Id)
    requires x.Valid() && y.Valid() && Print(x) == Print(y)
    ensures x == y
  {
    RoundTrip(x);
    RoundTrip(y);
  }

  /** The string and its terminator fit into the 27 bytes reserved for them, and no fewer would do. */
  lemma PrintFits(id: Id)
    requires id.Valid()
    ensures |Print(id)| + 1 <= 27
    ensures id == Id(WORD - 1, WORD - 1, WORD - 1) ==> |Print(id)| + 1 == 27
  {
    EightDigits(id.counter);
    EightDigits(id.timestamp);
    EightDigits(id.node);
    if id == Id(WORD - 1, WORD - 1, WORD - 1) {
      HexLength(WORD - 1, 7);
      assert Pow16(4) == 0x1_0000;
      assert Pow16(7) == 0x1000_0000;
    }
  }

  /** Strings in the one form that printing produces. */
  ghost predicate InPrintedForm(s: string) {
    || s == ROOT_ID
    || exists a, b, c :: IsTriple(s, a, b, c)
  }

  ghost predicate IsTriple(s: string, a: string, b: string, c: string) {
    && s == Join(a, b, c)
    && Canonical(a) && Canonical(b) && Canonical(c)
    && |a| <= 8 && |b| <= 8 && |c| <= 8
    && !(a == "0" && b == "0" && c == "0")
  }

  lemma NotAllZero(a: string, b: string, c: string)
    requires Canonical(a) && Canonical(b) && Canonical(c) && !(a == "0" && b == "0" && c == "0")
    ensures AllHex(a) && AllHex(b) && AllHex(c) && !(Value(a) == 0 && Value(b) == 0 && Value(c) == 0)
  {
    CanonicalIsHex(a);
    CanonicalIsHex(b);
    CanonicalIsHex(c);
    assert Hex(0) == "0";
  }

  /** A parsed string is printed back unchanged exactly when it is in printed form. */
  lemma ReprintsExactly(s: string)
    requires Parse(s).Some?
    ensures Print(Parse(s).value) == s <==> InPrintedForm(s)
  {
    var id := Parse(s).value;
    if s != ROOT_ID && Print(id) == s {
      ParsedIsValid(s);
      PrintedIsTriple(s, id);
    }
    if s != ROOT_ID && InPrintedForm(s) {
      var a, b, c :| IsTriple(s, a, b, c);
      TripleReprints(s, a, b, c);
    }
  }

  lemma {:induction false} ScanSmall(s: string, k: nat)
    ensures Scan(s, k).Some? ==> forall i :: 0 <= i < |Scan(s, k).value| ==> Scan(s, k).value[i] < WORD
    decreases k
  {
    if k > 1 {
      var n := DigitsLength(s);
      if n != |s| && s[n] == '-' {
        ScanSmall(s[n + 1..], k - 1);
      }
    }
  }

  lemma ParsedIsValid(s: string)
    requires Parse(s).Some?
    ensures Parse(s).value.Valid()
  {
    ScanSmall(s, 3);
  }

  lemma HexZero(v: nat)
    requires Hex(v) == "0"
    ensures v == 0
  {
    HexRoundTrip(v);
    assert Value("0") == 0;
  }

  lemma HexPart(v: nat)
    requires v < WORD
    ensures Canonical(Hex(v)) && |Hex(v)| <= 8 && (v != 0 ==> Hex(v) != "0")
  {
    HexIsCanonical(v);
    EightDigits(v);
    if Hex(v) == "0" {
      HexZero(v);
    }
  }

  lemma PrintedIsTriple(s: string, id: Id)
    requires id.Valid() && Print(id) == s && s != ROOT_ID
    ensures IsTriple(s, Hex(id.counter), Hex(id.timestamp), Hex(id.node))
  {
    HexPart(id.counter);
    HexPart(id.timestamp);
    HexPart(id.node);
  }

  lemma TripleReprints(s: string, a: string, b: string, c: string)
    requires IsTriple(s, a, b, c)
    ensures Parse(s).Some? && Print(Parse(s).value) == s
  {
    NotAllZero(a, b, c);
    CanonicalIsHex(a);
    CanonicalIsHex(b);
    CanonicalIsHex(c);
    EightDigits(Value(a));
    EightDigits(Value(b));
    EightDigits(Value(c));
    ParseJoined(a, b, c);
  }

  /** Other accepted spellings are rewritten: here the root id in numbers. */
  lemma OtherSpelling(zero: string)
    requires zero == "0"
    ensures Parse(Join(zero, zero, zero)) == Some(Id(0, 0, 0))
    ensures Print(Id(0, 0, 0)) != Join(zero, zero, zero)
  {
    ParseJoined(zero, zero, zero);
    assert Join(zero, zero, zero)[0] == '0';
  }
}
