/**
 Random initial passwords by rejection sampling. Randomness is a list of draws: the
 byte strings that successive calls of the random source return, each twice as long as
 the number of characters still needed.
 */
module PasswordGen {

  type byte = b: int | 0 <= b < 256

  const SIZE: nat := 55

  /** Letters and digits without those easily taken for another: I, O, i, l, o, 0 and 1. */
  function CharAt(i: nat): char
    requires i < SIZE
  {
    if i < 8 then 'A' + i as char
    else if i < 13 then 'J' + (i - 8) as char
    else if i < 24 then 'P' + (i - 13) as char
    else if i < 32 then 'a' + (i - 24) as char
    else if i < 34 then 'j' + (i - 32) as char
    else if i < 36 then 'm' + (i - 34) as char
    else if i < 47 then 'p' + (i - 36) as char
    else '2' + (i - 47) as char
  }

  function Chars(n: nat): (s: string)
    requires n <= SIZE
    ensures |s| == n && forall i: nat | i < n :: s[i] == CharAt(i)
  {
    if n == 0 then "" else Chars(n - 1) + [CharAt(n - 1)]
  }

  predicate InCharset(c: char) {
    exists i: nat | i < SIZE :: CharAt(i) == c
  }

  predicate Typable(p: string) {
    forall c <- p :: InCharset(c)
  }

  lemma Segment(lo: nat, text: string)
    requires lo + |text| <= SIZE && forall i: nat | i < |text| :: text[i] == CharAt(lo + i)
    ensures Chars(SIZE)[lo..lo + |text|] == text
  {
  }

  lemma UpperCase()
    ensures var charset := Chars(SIZE);
            charset[0..8] == "ABCDEFGH" && charset[8..13] == "JKLMN" && charset[13..24] == "PQRSTUVWXYZ"
  {
    Segment(0, "ABCDEFGH");
    Segment(8, "JKLMN");
    Segment(13, "PQRSTUVWXYZ");
  }

  lemma LowerCase()
    ensures var charset := Chars(SIZE);
            && charset[24..32] == "abcdefgh" && charset[32..34] == "jk" && charset[34..36] == "mn"
            && charset[36..47] == "pqrstuvwxyz"
  {
    Segment(24, "abcdefgh");
    Segment(32, "jk");
    Segment(34, "mn");
    Segment(36, "pqrstuvwxyz");
  }

  /** The 55 characters, spelled out. */
  lemma CharsetLiteral()
    ensures var charset := Chars(SIZE);
            && charset[0..8] == "ABCDEFGH" && charset[8..13] == "JKLMN" && charset[13..24] == "PQRSTUVWXYZ"
            && charset[24..32] == "abcdefgh" && charset[32..34] == "jk" && charset[34..36] == "mn"
            && charset[36..47] == "pqrstuvwxyz" && charset[47..55] == "23456789"
  {
    UpperCase();
    LowerCase();
    Segment(47, "23456789");
  }

  // ----- Generation -----

  /** Bytes from 220 up are rejected, so that each character has as many bytes. */
  predicate Accepted(b: byte) {
    b < 256 - 256 % SIZE
  }

  function CharOf(b: byte): char {
    CharAt(b % SIZE)
  }

  /** The characters of the first `n` accepted bytes, or of all if there are fewer. */
  function Take(bytes: seq<byte>, n: nat): (s: string)
    ensures |s| <= n && Typable(s)
  {
    if bytes == [] || n == 0 then ""
    else if Accepted(bytes[0]) then [CharOf(bytes[0])] + Take(bytes[1..], n - 1)
    else Take(bytes[1..], n)
  }

  datatype Outcome =
    | Password(text: string)
    | BadLength(length: int)  // the error thrown for a length outside 4 to 64
    | NeedsDraw(length: int)  // the draws given are used up

  /** The draws have the lengths the generator asks for. */
  predicate Fits(length: int, draws: seq<seq<byte>>)
    decreases |draws|
  {
    4 <= length <= 64 && draws != [] ==>
      && |draws[0]| == 2 * length
      && (|Take(draws[0], length)| < length ==> Fits(length - |Take(draws[0], length)|, draws[1..]))
  }

  function Generate(length: int, draws: seq<seq<byte>>): Outcome
    decreases |draws|
  {
    if length < 4 || length > 64 then BadLength(length)
    else if draws == [] then NeedsDraw(length)
    else
      var s := Take(draws[0], length);
      if |s| == length then Password(s)
      else
        match Generate(length - |s|, draws[1..])
        case Password(rest) => Password(s + rest)
        case other => other
  }

  lemma TakeFirst(x: seq<byte>, n: nat)
    requires x != [] && n > 0
    ensures Take(x, n) == if Accepted(x[0]) then [CharOf(x[0])] + Take(x[1..], n - 1) else Take(x[1..], n)
  {
  }

  lemma Regroup(s: string, c: char, t: string)
    ensures s + ([c] + t) == s + [c] + t
  {
  }

  method GenerateRandomPassword(length: int, draws: seq<seq<byte>>) returns (outcome: Outcome)
    requires Fits(length, draws)
    ensures outcome == Generate(length, draws)
    decreases |draws|
  {
    if length < 4 || length > 64 {
      return BadLength(length);
    }
    if draws == [] {
      return NeedsDraw(length);
    }
    var bytes := draws[0];
    var result := "";
    var i := 0;
    while i < |bytes| && |result| < length
      invariant i <= |bytes| && |result| <= length
      invariant result + Take(bytes[i..], length - |result|) == Take(bytes, length)
    {
      assert bytes[i..][1..] == bytes[i + 1..];
      TakeFirst(bytes[i..], length - |result|);
      if Accepted(bytes[i]) {
        Regroup(result, CharOf(bytes[i]), Take(bytes[i + 1..], length - |result| - 1));
        result := result + [CharOf(bytes[i])];
      }
      i := i + 1;
    }
    assert Take(bytes[i..], length - |result|) == "" && result + "" == result;
    if |result| < length {
      var rest := GenerateRandomPassword(length - |result|, draws[1..]);
      match rest
      case Password(text) => return Password(result + text);
      case _ => return rest;
    }
    return Password(result);
  }

  /** What is returned has exactly the length asked for, in characters of the set. */
  lemma {:induction false} PasswordShape(length: int, draws: seq<seq<byte>>)
    requires Generate(length, draws).Password?
    ensures var p := Generate(length, draws).text; |p| == length && Typable(p)
    decreases |draws|
  {
    if |Take(draws[0], length)| < length {
      PasswordShape(length - |Take(draws[0], length)|, draws[1..]);
    }
  }

  /** The number of accepted bytes in a draw. */
  function AcceptedIn(bytes: seq<byte>): nat {
    if bytes == [] then 0 else (if Accepted(bytes[0]) then 1 else 0) + AcceptedIn(bytes[1..])
  }

  function AcceptedInAll(draws: seq<seq<byte>>): nat {
    if draws == [] then 0 else AcceptedIn(draws[0]) + AcceptedInAll(draws[1..])
  }

  /** After the first `k` draws one to three characters are missing. */
  predicate FewMissing(length: int, draws: seq<seq<byte>>, k: nat)
    requires k <= |draws|
  {
    1 <= length - AcceptedInAll(draws[..k]) <= 3
  }

  ghost predicate EverFewMissing(length: int, draws: seq<seq<byte>>) {
    exists k: nat | k <= |draws| :: FewMissing(length, draws, k)
  }

  lemma {:induction false} TakeCounts(bytes: seq<byte>, n: nat)
    ensures |Take(bytes, n)| == if AcceptedIn(bytes) < n then AcceptedIn(bytes) else n
    decreases |bytes|
  {
    if bytes != [] && n > 0 {
      TakeCounts(bytes[1..], if Accepted(bytes[0]) then n - 1 else n);
    }
  }

  lemma FewMissingLater(length: int, draws: seq<seq<byte>>)
    requires draws != [] && length >= 4
    ensures EverFewMissing(length, draws) <==> EverFewMissing(length - AcceptedIn(draws[0]), draws[1..])
  {
    var rest, length' := draws[1..], length - AcceptedIn(draws[0]);
    forall k: nat | k < |draws|
      ensures FewMissing(length, draws, k + 1) <==> FewMissing(length', rest, k)
    {
      assert draws[..k + 1][1..] == rest[..k];
    }
    if k: nat :| k <= |draws| && FewMissing(length, draws, k) {
      assert k > 0;
      assert FewMissing(length', rest, k - 1);
    }
    if k: nat :| k <= |rest| && FewMissing(length', rest, k) {
      assert FewMissing(length, draws, k + 1);
    }
  }

  lemma {:induction false} NoneMissing(length: int, draws: seq<seq<byte>>)
    requires length <= 0
    ensures !EverFewMissing(length, draws)
  {
  }

  /** For a legal length the generator fails exactly when at some point one to three
      characters are missing: topping up re-enters the check on the length, which refuses
      so few. Otherwise it succeeds as soon as enough bytes were accepted. */
  lemma {:induction false} FailsExactly(length: int, draws: seq<seq<byte>>)
    requires 1 <= length <= 64
    ensures var outcome, enough := Generate(length, draws), length <= AcceptedInAll(draws);
            && (outcome.BadLength? <==> EverFewMissing(length, draws))
            && (outcome.Password? <==> enough && !EverFewMissing(length, draws))
            && (outcome.NeedsDraw? <==> !enough && !EverFewMissing(length, draws))
            && (outcome.BadLength? ==> 1 <= outcome.length <= 3)
    decreases |draws|
  {
    if length < 4 {
      assert FewMissing(length, draws, 0);
    } else if draws == [] {
      assert forall k: nat | k <= |draws| :: draws[..k] == [];
    } else {
      TakeCounts(draws[0], length);
      FewMissingLater(length, draws);
      if AcceptedIn(draws[0]) < length {
        FailsExactly(length - AcceptedIn(draws[0]), draws[1..]);
      } else {
        NoneMissing(length - AcceptedIn(draws[0]), draws[1..]);
      }
    }
  }

  function Repeat(b: byte, n: nat): (s: seq<byte>)
    ensures |s| == n
  {
    if n == 0 then [] else [b] + Repeat(b, n - 1)
  }

  lemma RepeatCounts(b: byte, n: nat)
    ensures AcceptedIn(Repeat(b, n)) == if Accepted(b) then n else 0
  {
  }

  lemma {:induction false} CountsAdd(x: seq<byte>, y: seq<byte>)
    ensures AcceptedIn(x + y) == AcceptedIn(x) + AcceptedIn(y)
    decreases |x|
  {
    if x == [] {
      assert x + y == y;
    } else {
      CountsAdd(x[1..], y);
      assert (x + y)[1..] == x[1..] + y;
    }
  }

  /** Such a failure: of the sixteen bytes drawn for eight characters five are accepted. */
  lemma ShortTopUpThrows()
    ensures var draws := [Repeat(0, 5) + Repeat(255, 11)];
            Fits(8, draws) && Generate(8, draws) == BadLength(3)
  {
    var draw := Repeat(0, 5) + Repeat(255, 11);
    RepeatCounts(0, 5);
    RepeatCounts(255, 11);
    CountsAdd(Repeat(0, 5), Repeat(255, 11));
    TakeCounts(draw, 8);
  }

  // ----- Uniformity -----

  /** The bytes from `lo` up. */
  ghost function BytesFrom(lo: int): set<byte> {
    set b: byte | 0 <= b < 256 && AtLeast(b, lo)
  }

  predicate AtLeast(b: byte, lo: int) {
    lo <= b
  }

  lemma {:induction false} BytesFromSize(lo: int)
    requires 0 <= lo <= 256
    ensures |BytesFrom(lo)| == 256 - lo
    decreases 256 - lo
  {
    if lo == 256 {
      assert BytesFrom(lo) == {};
    } else {
      BytesFromSize(lo + 1);
      assert BytesFrom(lo) == {lo} + BytesFrom(lo + 1);
    }
  }

  /** All byte strings of length `m`. */
  ghost function Strings(m: nat): set<seq<byte>> {
    if m == 0 then {[]} else Prefixed(BytesFrom(0), Strings(m - 1))
  }

  lemma {:induction false} InStrings(m: nat, x: seq<byte>)
    ensures x in Strings(m) <==> |x| == m
    decreases m
  {
    if m > 0 {
      InPrefixed(BytesFrom(0), Strings(m - 1), x);
      if x != [] { InStrings(m - 1, x[1..]); }
    }
  }

  /** The byte strings of length `m` whose first `|p|` accepted bytes spell `p`. */
  ghost function Spelling(m: nat, p: string): set<seq<byte>> {
    set x | x in Strings(m) && Take(x, |p|) == p
  }

  ghost function Prefixed(bs: set<byte>, tails: set<seq<byte>>): set<seq<byte>> {
    set b, t | b in bs && t in tails :: [b] + t
  }

  ghost function Rejects(): set<byte> {
    BytesFrom(256 - 256 % SIZE)
  }

  ghost function BytesOf(c: char): set<byte> {
    set b | b in BytesFrom(0) && Accepted(b) && CharOf(b) == c
  }

  lemma InPrefixed(bs: set<byte>, tails: set<seq<byte>>, x: seq<byte>)
    ensures x in Prefixed(bs, tails) <==> x != [] && x[0] in bs && x[1..] in tails
  {
    if x != [] {
      assert x == [x[0]] + x[1..];
    }
    if x in Prefixed(bs, tails) {
      var b, t :| b in bs && t in tails && x == [b] + t;
      assert x[1..] == t;
    }
  }

  lemma TakeSpells(x: seq<byte>, p: string)
    requires x != [] && p != ""
    ensures Take(x, |p|) == p <==>
              if Accepted(x[0]) then CharOf(x[0]) == p[0] && Take(x[1..], |p[1..]|) == p[1..]
              else Take(x[1..], |p|) == p
  {
    if Accepted(x[0]) {
      AcceptedSpells(x, p, Take(x[1..], |p[1..]|));
    } else {
      TakeFirst(x, |p|);
    }
  }

  lemma AcceptedSpells(x: seq<byte>, p: string, t: string)
    requires x != [] && p != "" && Accepted(x[0]) && t == Take(x[1..], |p| - 1)
    ensures Take(x, |p|) == p <==> CharOf(x[0]) == p[0] && t == p[1..]
  {
    TakeFirst(x, |p|);
    ConsIs(CharOf(x[0]), t, p);
  }

  lemma ConsIs(c: char, s: string, p: string)
    requires p != ""
    ensures [c] + s == p <==> c == p[0] && s == p[1..]
  {
    assert p == [p[0]] + p[1..];
    assert ([c] + s)[1..] == s;
  }

  lemma {:induction false} PrefixedByOne(b: byte, tails: set<seq<byte>>)
    ensures |Prefixed({b}, tails)| == |tails|
    decreases |tails|
  {
    if tails == {} {
      assert Prefixed({b}, tails) == {};
    } else {
      var t :| t in tails;
      var rest := tails - {t};
      PrefixedByOne(b, rest);
      forall x
        ensures x in Prefixed({b}, tails) <==> x in Prefixed({b}, rest) + {[b] + t}
      {
        InPrefixed({b}, tails, x);
        InPrefixed({b}, rest, x);
      }
      assert Prefixed({b}, tails) == Prefixed({b}, rest) + {[b] + t};
      InPrefixed({b}, rest, [b] + t);
      assert ([b] + t)[1..] == t;
    }
  }

  lemma Distribute(x: nat, y: nat)
    ensures (x + 1) * y == x * y + y
  {
  }

  lemma PrefixedSplit(bs: set<byte>, b: byte, tails: set<seq<byte>>)
    requires b in bs
    ensures Prefixed(bs, tails) == Prefixed(bs - {b}, tails) + Prefixed({b}, tails)
    ensures Prefixed(bs - {b}, tails) !! Prefixed({b}, tails)
  {
    forall x
      ensures x in Prefixed(bs, tails) <==> x in Prefixed(bs - {b}, tails) + Prefixed({b}, tails)
      ensures !(x in Prefixed(bs - {b}, tails) && x in Prefixed({b}, tails))
    {
      InPrefixed(bs, tails, x);
      InPrefixed(bs - {b}, tails, x);
      InPrefixed({b}, tails, x);
    }
  }

  lemma {:induction false} PrefixedSize(bs: set<byte>, tails: set<seq<byte>>)
    ensures |Prefixed(bs, tails)| == |bs| * |tails|
    decreases |bs|
  {
    if bs == {} {
      assert Prefixed(bs, tails) == {};
    } else {
      var b :| b in bs;
      PrefixedSize(bs - {b}, tails);
      PrefixedSizeStep(bs, b, tails);
    }
  }

  lemma PrefixedSizeStep(bs: set<byte>, b: byte, tails: set<seq<byte>>)
    requires b in bs && |Prefixed(bs - {b}, tails)| == |bs - {b}| * |tails|
    ensures |Prefixed(bs, tails)| == |bs| * |tails|
  {
    PrefixedSplit(bs, b, tails);
    PrefixedByOne(b, tails);
    Distribute(|bs - {b}|, |tails|);
    assert |bs| == |bs - {b}| + 1;
  }

  ghost function FourBytes(k: nat): (s: set<byte>)
    requires k < SIZE
    ensures |s| == 4
    ensures forall b: byte :: b in s <==> b == k || b == k + 55 || b == k + 110 || b == k + 165
  {
    {k, k + 55, k + 110, k + 165}
  }

  lemma InBytesOf(b: byte, k: nat)
    requires k < SIZE
    ensures b in BytesOf(CharAt(k)) <==> b in FourBytes(k)
  {
    if CharOf(b) == CharAt(k) { CharsetDistinct(b % SIZE, k); }
  }

  lemma FourBytesEach(c: char)
    requires InCharset(c)
    ensures |BytesOf(c)| == 4
  {
    var k: nat :| k < SIZE && CharAt(k) == c;
    FourBytesAt(k);
  }

  lemma FourBytesAt(k: nat)
    requires k < SIZE
    ensures |BytesOf(CharAt(k))| == 4
  {
    forall b: byte
      ensures b in BytesOf(CharAt(k)) <==> b in FourBytes(k)
    {
      InBytesOf(b, k);
    }
    assert BytesOf(CharAt(k)) == FourBytes(k);
  }

  function Pow(base: nat, n: nat): nat {
    if n == 0 then 1 else base * Pow(base, n - 1)
  }

  /** In how many ways `m` bytes spell any one password of `n` characters. */
  function Ways(m: nat, n: nat): nat
    decreases m
  {
    if m == 0 then (if n == 0 then 1 else 0)
    else if n == 0 then 256 * Ways(m - 1, 0)
    else 36 * Ways(m - 1, n) + 4 * Ways(m - 1, n - 1)
  }

  /** The number of byte strings that yield a password depends on its length alone. */
  lemma {:induction false} SpellingSize(m: nat, p: string)
    requires Typable(p)
    ensures |Spelling(m, p)| == Ways(m, |p|)
    decreases m
  {
    if m == 0 {
      NoBytesSpelling(p);
    } else if p == "" {
      SpellingSize(m - 1, "");
      AnyBytesSpelling(m);
    } else {
      TypableTail(p);
      SpellingSize(m - 1, p);
      SpellingSize(m - 1, p[1..]);
      SpellingSizeStep(m, p);
      WaysStep(m, |p|);
    }
  }

  lemma TypableTail(p: string)
    requires Typable(p) && p != ""
    ensures Typable(p[1..]) && InCharset(p[0])
  {
  }

  lemma WaysStep(m: nat, n: nat)
    requires m > 0 && n > 0
    ensures Ways(m, n) == 36 * Ways(m - 1, n) + 4 * Ways(m - 1, n - 1)
  {
  }

  lemma NoBytesSpelling(p: string)
    ensures |Spelling(0, p)| == if p == "" then 1 else 0
  {
    assert Strings(0) == {[]};
    assert Spelling(0, p) == if p == "" then {[]} else {};
  }

  lemma AnyBytesSpelling(m: nat)
    requires m > 0
    ensures |Spelling(m, "")| == 256 * |Spelling(m - 1, "")|
  {
    BytesFromSize(0);
    PrefixedSize(BytesFrom(0), Strings(m - 1));
    assert Spelling(m, "") == Strings(m) && Spelling(m - 1, "") == Strings(m - 1);
  }

  /** The first byte is rejected, or it is one of the four of the first character. */
  lemma SpellingSplit(m: nat, p: string)
    requires m > 0 && p != ""
    ensures var a, b := Prefixed(Rejects(), Spelling(m - 1, p)), Prefixed(BytesOf(p[0]), Spelling(m - 1, p[1..]));
            Spelling(m, p) == a + b && a !! b
  {
    var a, b := Prefixed(Rejects(), Spelling(m - 1, p)), Prefixed(BytesOf(p[0]), Spelling(m - 1, p[1..]));
    forall x
      ensures x in Spelling(m, p) <==> x in a + b
      ensures !(x in a && x in b)
    {
      InPrefixed(Rejects(), Spelling(m - 1, p), x);
      InPrefixed(BytesOf(p[0]), Spelling(m - 1, p[1..]), x);
      InStrings(m, x);
      if x != [] {
        InStrings(m - 1, x[1..]);
        TakeSpells(x, p);
      }
    }
  }

  lemma SpellingSizeStep(m: nat, p: string)
    requires m > 0 && p != "" && InCharset(p[0])
    ensures |Spelling(m, p)| == 36 * |Spelling(m - 1, p)| + 4 * |Spelling(m - 1, p[1..])|
  {
    SpellingSplit(m, p);
    PrefixedSize(Rejects(), Spelling(m - 1, p));
    PrefixedSize(BytesOf(p[0]), Spelling(m - 1, p[1..]));
    FourBytesEach(p[0]);
    BytesFromSize(256 - 256 % SIZE);
    assert |Rejects()| == 36;
  }

  /** No modulo bias: of all equally likely first draws, as many yield one password as any
      other of the same length. */
  lemma UniformFirstDraw(p: string, q: string)
    requires 4 <= |p| == |q| <= 64
    requires Typable(p) && Typable(q)
    ensures |Spelling(2 * |p|, p)| == |Spelling(2 * |q|, q)|
    ensures forall x: seq<byte> | |x| == 2 * |p| :: x in Spelling(2 * |p|, p) <==> Generate(|p|, [x]) == Password(p)
  {
    SpellingSize(2 * |p|, p);
    SpellingSize(2 * |q|, q);
    forall x: seq<byte> | |x| == 2 * |p|
      ensures x in Spelling(2 * |p|, p) <==> Generate(|p|, [x]) == Password(p)
    {
      InStrings(2 * |p|, x);
      OneDraw(|p|, x, p);
    }
  }

  lemma OneDraw(n: nat, x: seq<byte>, p: string)
    requires 4 <= n <= 64 && |p| == n
    ensures Generate(n, [x]) == Password(p) <==> Take(x, n) == p
  {
  }

  /** A password of `n` characters is spelled by exactly 4^n strings of `n` bytes, all of
      them accepted. */
  lemma {:induction false} ExactSpellings(p: string)
    requires Typable(p)
    ensures |Spelling(|p|, p)| == Pow(4, |p|)
  {
    SpellingSize(|p|, p);
    WaysExact(|p|);
  }

  lemma {:induction false} TooFewBytes(m: nat, n: nat)
    requires m < n
    ensures Ways(m, n) == 0
    decreases m
  {
    if m > 0 {
      TooFewBytes(m - 1, n);
      TooFewBytes(m - 1, n - 1);
    }
  }

  lemma {:induction false} WaysExact(n: nat)
    ensures Ways(n, n) == Pow(4, n)
  {
    if n > 0 {
      WaysExact(n - 1);
      TooFewBytes(n - 1, n);
    }
  }

  // ----- Uniformity across top-ups -----

  // In every draw the bytes of the wanted character change places with those of another
  // one. This turns the draws that yield one password into those that yield the other.

  ghost function IndexOf(c: char): (i: nat)
    requires InCharset(c)
    ensures i < SIZE && CharAt(i) == c
  {
    var i: nat :| i < SIZE && CharAt(i) == c; i
  }

  ghost function WithChar(b: byte, c: char): (b': byte)
    requires Accepted(b) && InCharset(c)
    ensures Accepted(b') && CharOf(b') == c && b' / SIZE == b / SIZE
  {
    ByteParts(b / SIZE, IndexOf(c));
    b / SIZE * SIZE + IndexOf(c)
  }

  lemma ByteParts(run: nat, i: nat)
    requires run < 4 && i < SIZE
    ensures var b := run * SIZE + i; b < 256 - 256 % SIZE && b / SIZE == run && b % SIZE == i
  {
  }

  /** The bytes of `c` and those of `d` change places. */
  ghost function Exchanged(b: byte, c: char, d: char): byte
    requires InCharset(c) && InCharset(d)
  {
    if !Accepted(b) then b
    else if CharOf(b) == c then WithChar(b, d)
    else if CharOf(b) == d then WithChar(b, c)
    else b
  }

  lemma CharsetDistinct(i: nat, j: nat)
    requires i < SIZE && j < SIZE && CharAt(i) == CharAt(j)
    ensures i == j
  {
  }

  /** An accepted byte is known by its run of 55 and its character. */
  lemma SameByte(b: byte, b': byte)
    requires b / SIZE == b' / SIZE && CharOf(b) == CharOf(b')
    ensures b == b'
  {
    CharsetDistinct(b % SIZE, b' % SIZE);
  }

  lemma ExchangedTwice(b: byte, c: char, d: char)
    requires InCharset(c) && InCharset(d)
    ensures var b' := Exchanged(b, c, d);
            && Accepted(b') == Accepted(b) && (Accepted(b) ==> (CharOf(b) == c <==> CharOf(b') == d))
            && Exchanged(b', c, d) == b
  {
    if Accepted(b) {
      SameByte(b, Exchanged(Exchanged(b, c, d), c, d));
    }
  }

  /** A draw in which the accepted bytes change places, `p[i]` against `q[i]`. */
  ghost function Recoded(x: seq<byte>, p: string, q: string): seq<byte>
    requires |p| == |q| && Typable(p) && Typable(q)
  {
    if x == [] || p == "" then x
    else if Accepted(x[0]) then [Exchanged(x[0], p[0], q[0])] + Recoded(x[1..], p[1..], q[1..])
    else [x[0]] + Recoded(x[1..], p, q)
  }

  lemma RecodedFirst(x: seq<byte>, p: string, q: string)
    requires |p| == |q| && Typable(p) && Typable(q) && x != [] && p != ""
    ensures var y := Recoded(x, p, q);
            && y != []
            && y[0] == (if Accepted(x[0]) then Exchanged(x[0], p[0], q[0]) else x[0])
            && y[1..] == (if Accepted(x[0]) then Recoded(x[1..], p[1..], q[1..]) else Recoded(x[1..], p, q))
  {
  }

  lemma SameParts<T>(s: seq<T>, t: seq<T>)
    requires s != [] && t != [] && s[0] == t[0] && s[1..] == t[1..]
    ensures s == t
  {
    assert s == [s[0]] + s[1..] && t == [t[0]] + t[1..];
  }

  lemma {:induction false} RecodedTwice(x: seq<byte>, p: string, q: string)
    requires |p| == |q| && Typable(p) && Typable(q)
    ensures |Recoded(x, p, q)| == |x| && Recoded(Recoded(x, p, q), p, q) == x
    decreases |x|
  {
    if x != [] && p != "" {
      var y := Recoded(x, p, q);
      ExchangedTwice(x[0], p[0], q[0]);
      RecodedFirst(x, p, q);
      RecodedFirst(y, p, q);
      if Accepted(x[0]) {
        RecodedTwice(x[1..], p[1..], q[1..]);
      } else {
        RecodedTwice(x[1..], p, q);
      }
      SameParts(Recoded(y, p, q), x);
    }
  }

  /** The draw `y` has as many accepted bytes as `x`, and spells `q` as far as `x` spells `p`. */
  predicate SpellAlike(x: seq<byte>, p: string, y: seq<byte>, q: string)
    requires |p| == |q|
  {
    var s, t := Take(x, |p|), Take(y, |q|);
    |s| == |t| && (s == p[..|s|] <==> t == q[..|t|])
  }

  lemma AcceptedByteSpells(x: seq<byte>, p: string, y: seq<byte>, q: string)
    requires |p| == |q| && p != "" && x != [] && y != [] && Accepted(x[0]) && Accepted(y[0])
    requires CharOf(x[0]) == p[0] <==> CharOf(y[0]) == q[0]
    requires SpellAlike(x[1..], p[1..], y[1..], q[1..])
    ensures SpellAlike(x, p, y, q)
  {
    TakeFirst(x, |p|);
    TakeFirst(y, |q|);
    BothSpell(CharOf(x[0]), Take(x[1..], |p[1..]|), p, CharOf(y[0]), Take(y[1..], |q[1..]|), q);
  }

  lemma RejectedByteSpells(x: seq<byte>, p: string, y: seq<byte>, q: string)
    requires |p| == |q| && p != "" && x != [] && y != [] && !Accepted(x[0]) && !Accepted(y[0])
    requires SpellAlike(x[1..], p, y[1..], q)
    ensures SpellAlike(x, p, y, q)
  {
    TakeFirst(x, |p|);
    TakeFirst(y, |q|);
  }

  lemma {:induction false} RecodedSpells(x: seq<byte>, p: string, q: string)
    requires |p| == |q| && Typable(p) && Typable(q)
    ensures SpellAlike(x, p, Recoded(x, p, q), q)
    decreases |x|
  {
    if x != [] && p != "" {
      ExchangedTwice(x[0], p[0], q[0]);
      RecodedFirst(x, p, q);
      if Accepted(x[0]) {
        RecodedSpells(x[1..], p[1..], q[1..]);
        AcceptedByteSpells(x, p, Recoded(x, p, q), q);
      } else {
        RecodedSpells(x[1..], p, q);
        RejectedByteSpells(x, p, Recoded(x, p, q), q);
      }
    }
  }

  lemma BothSpell(c: char, s: string, p: string, d: char, t: string, q: string)
    requires |s| == |t| < |p| == |q| && (c == p[0] <==> d == q[0])
    requires s == p[1..][..|s|] <==> t == q[1..][..|t|]
    ensures [c] + s == p[..|s| + 1] <==> [d] + t == q[..|t| + 1]
  {
    SpellsCons(c, s, p);
    SpellsCons(d, t, q);
  }

  lemma SpellsCons(c: char, s: string, p: string)
    requires |s| < |p|
    ensures [c] + s == p[..|s| + 1] <==> c == p[0] && s == p[1..][..|s|]
  {
    assert p[..|s| + 1] == [p[0]] + p[1..][..|s|];
    assert ([c] + s)[1..] == s;
  }

  ghost function RecodedAll(draws: seq<seq<byte>>, p: string, q: string): seq<seq<byte>>
    requires |p| == |q| && Typable(p) && Typable(q)
    decreases |draws|
  {
    if draws == [] then draws
    else
      var n := |Take(draws[0], |p|)|;
      [Recoded(draws[0], p, q)] + RecodedAll(draws[1..], p[n..], q[n..])
  }

  lemma RecodedAllFirst(draws: seq<seq<byte>>, p: string, q: string)
    requires |p| == |q| && Typable(p) && Typable(q) && draws != []
    ensures var n, draws' := |Take(draws[0], |p|)|, RecodedAll(draws, p, q);
            draws' != [] && draws'[0] == Recoded(draws[0], p, q) && draws'[1..] == RecodedAll(draws[1..], p[n..], q[n..])
  {
  }

  predicate SameLengths(draws: seq<seq<byte>>, draws': seq<seq<byte>>) {
    |draws'| == |draws| && forall i | 0 <= i < |draws| :: |draws'[i]| == |draws[i]|
  }

  lemma SameLengthsCons(draws: seq<seq<byte>>, draws': seq<seq<byte>>)
    requires draws != [] && draws' != [] && |draws[0]| == |draws'[0]| && SameLengths(draws[1..], draws'[1..])
    ensures SameLengths(draws, draws')
  {
    forall i | 0 <= i < |draws|
      ensures |draws'[i]| == |draws[i]|
    {
      if i > 0 {
        assert draws'[i] == draws'[1..][i - 1] && draws[i] == draws[1..][i - 1];
      }
    }
  }

  lemma {:induction false} RecodedAllTwice(draws: seq<seq<byte>>, p: string, q: string)
    requires |p| == |q| && Typable(p) && Typable(q)
    ensures SameLengths(draws, RecodedAll(draws, p, q)) && RecodedAll(RecodedAll(draws, p, q), p, q) == draws
    decreases |draws|
  {
    if draws != [] {
      var n, draws' := |Take(draws[0], |p|)|, RecodedAll(draws, p, q);
      RecodedTwice(draws[0], p, q);
      RecodedSpells(draws[0], p, q);
      RecodedAllFirst(draws, p, q);
      RecodedAllFirst(draws', p, q);
      RecodedAllTwice(draws[1..], p[n..], q[n..]);
      SameLengthsCons(draws, draws');
      SameParts(RecodedAll(draws', p, q), draws);
    }
  }

  /** After a first draw that leaves characters missing, a password comes out exactly if the
      draw spells its beginning and the top-up yields its end. */
  lemma GenerateSplits(p: string, draws: seq<seq<byte>>)
    requires 4 <= |p| <= 64 && draws != [] && |Take(draws[0], |p|)| < |p|
    ensures var s := Take(draws[0], |p|);
            Generate(|p|, draws) == Password(p) <==>
              s == p[..|s|] && Generate(|p| - |s|, draws[1..]) == Password(p[|s|..])
  {
    var s := Take(draws[0], |p|);
    assert p == p[..|s|] + p[|s|..];
    var rest := Generate(|p| - |s|, draws[1..]);
    if rest.Password? {
      assert (s + rest.text)[..|s|] == s && (s + rest.text)[|s|..] == rest.text;
    }
  }

  lemma CompleteDraw(p: string, draws: seq<seq<byte>>)
    requires 4 <= |p| <= 64 && draws != [] && |Take(draws[0], |p|)| == |p|
    ensures Generate(|p|, draws) == Password(p) <==> Take(draws[0], |p|) == p
  {
  }

  /** Draws that begin alike and whose top-ups fare alike have the same outcome. */
  lemma SameOutcome(p: string, draws: seq<seq<byte>>, q: string, draws': seq<seq<byte>>)
    requires 4 <= |p| == |q| <= 64 && draws != [] && draws' != [] && SpellAlike(draws[0], p, draws'[0], q)
    requires var n := |Take(draws[0], |p|)|;
             n < |p| ==> (Generate(|p| - n, draws[1..]) == Password(p[n..]) <==>
                          Generate(|q| - n, draws'[1..]) == Password(q[n..]))
    ensures Generate(|p|, draws) == Password(p) <==> Generate(|q|, draws') == Password(q)
  {
    if |Take(draws[0], |p|)| < |p| {
      GenerateSplits(p, draws);
      GenerateSplits(q, draws');
    } else {
      CompleteDraw(p, draws);
      CompleteDraw(q, draws');
      assert p[..|p|] == p && q[..|q|] == q;
    }
  }

  lemma {:induction false} RecodedGenerates(draws: seq<seq<byte>>, p: string, q: string)
    requires |p| == |q| && Typable(p) && Typable(q)
    ensures Generate(|p|, draws) == Password(p) <==> Generate(|q|, RecodedAll(draws, p, q)) == Password(q)
    decreases |draws|
  {
    if 4 <= |p| <= 64 && draws != [] {
      var n := |Take(draws[0], |p|)|;
      RecodedSpells(draws[0], p, q);
      RecodedAllFirst(draws, p, q);
      if n < |p| {
        RecodedGenerates(draws[1..], p[n..], q[n..]);
      }
      SameOutcome(p, draws, q, RecodedAll(draws, p, q));
    }
  }

  /** No password is likelier than another of its length, top-ups included: recoding is its
      own inverse, keeps the length of every draw, and takes the draws that yield `p` to
      exactly those that yield `q`. */
  lemma Unbiased(p: string, q: string, draws: seq<seq<byte>>)
    requires |p| == |q| && Typable(p) && Typable(q)
    ensures var draws' := RecodedAll(draws, p, q);
            && SameLengths(draws, draws') && RecodedAll(draws', p, q) == draws
            && (Generate(|p|, draws) == Password(p) <==> Generate(|q|, draws') == Password(q))
  {
    RecodedAllTwice(draws, p, q);
    RecodedGenerates(draws, p, q);
  }
}
