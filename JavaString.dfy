/** The parts of `java.lang.String` that the sign catalogue relies on:
    `split` with a literal separator, `trim`, `replace` of one character by
    nothing, and `hashCode`. Strings are sequences of characters. */
module JavaString {
  import opened Wrappers

  /** `sep` occurs in `s` starting at index `i`. */
  predicate OccursAt(s: string, sep: string, i: nat) {
    i + |sep| <= |s| && s[i..i + |sep|] == sep
  }

  predicate Contains(s: string, sep: string) {
    exists i :: 0 <= i <= |s| && OccursAt(s, sep, i)
  }

  /** The first occurrence of `sep` in `s` at or after index `from`
      (`String.indexOf(sep, from)`, with `None` for -1). */
  function IndexFrom(s: string, sep: string, from: nat): (r: Option<nat>)
    requires |sep| > 0
    ensures r.Some? ==> from <= r.value && OccursAt(s, sep, r.value)
    ensures r.Some? ==> forall j: nat :: from <= j < r.value ==> !OccursAt(s, sep, j)
    ensures r.None? ==> forall j: nat :: from <= j ==> !OccursAt(s, sep, j)
    decreases |s| - from
  {
    if from + |sep| > |s| then None
    else if s[from..from + |sep|] == sep then Some(from)
    else IndexFrom(s, sep, from + 1)
  }

  /** An occurrence inside a slice is an occurrence in the whole string. */
  lemma OccursInSlice(s: string, sep: string, lo: nat, hi: nat, k: nat)
    requires lo <= hi <= |s|
    requires OccursAt(s[lo..hi], sep, k)
    ensures OccursAt(s, sep, lo + k) && lo + k + |sep| <= hi
  {
    var t := s[lo..hi];
    var u, v := t[k..k + |sep|], s[lo + k..lo + k + |sep|];
    assert forall m :: 0 <= m < |sep| ==> u[m] == v[m];
  }

  /** Every piece obtained by cutting `s[from..]` at each occurrence of `sep`,
      scanning left to right without overlap; `n` occurrences give `n + 1`
      pieces, empty ones included. */
  function PiecesFrom(s: string, sep: string, from: nat): (r: seq<string>)
    requires |sep| > 0 && from <= |s|
    ensures |r| >= 1
    decreases |s| - from
  {
    match IndexFrom(s, sep, from)
    case None => [s[from..]]
    case Some(i) => [s[from..i]] + PiecesFrom(s, sep, i + |sep|)
  }

  function Pieces(s: string, sep: string): (r: seq<string>)
    requires |sep| > 0
    ensures |r| >= 1
  {
    PiecesFrom(s, sep, 0)
  }

  /** `String.join(sep, ps)`. */
  function Join(ps: seq<string>, sep: string): string {
    if ps == [] then ""
    else if |ps| == 1 then ps[0]
    else ps[0] + sep + Join(ps[1..], sep)
  }

  /** Joining the pieces with the separator gives back the text they came from. */
  lemma {:induction false} JoinPiecesFrom(s: string, sep: string, from: nat)
    requires |sep| > 0 && from <= |s|
    ensures Join(PiecesFrom(s, sep, from), sep) == s[from..]
    decreases |s| - from
  {
    var next := IndexFrom(s, sep, from);
    if next.Some? {
      var i := next.value;
      var a, b := s[from..i], s[i + |sep|..];
      var tail := Join(PiecesFrom(s, sep, i + |sep|), sep);
      JoinPiecesFrom(s, sep, i + |sep|);
      assert tail == b;
      JoinPiecesStep(s, sep, from, i);
      assert Join(PiecesFrom(s, sep, from), sep) == a + sep + tail;
      SliceAround(s, from, i, i + |sep|);
      assert s[from..] == a + sep + b;
    } else {
      assert PiecesFrom(s, sep, from) == [s[from..]];
    }
  }

  /** Joining the pieces from `from` is the first piece, the separator, and
      the join of the pieces after the first separator. */
  lemma JoinPiecesStep(s: string, sep: string, from: nat, i: nat)
    requires |sep| > 0 && from <= |s| && IndexFrom(s, sep, from) == Some(i)
    ensures s[i..i + |sep|] == sep
    ensures Join(PiecesFrom(s, sep, from), sep) == s[from..i] + sep + Join(PiecesFrom(s, sep, i + |sep|), sep)
  {
    PiecesFromCons(s, sep, from, i);
    JoinCons(s[from..i], PiecesFrom(s, sep, i + |sep|), sep);
  }

  lemma SliceAround(s: string, from: nat, i: nat, j: nat)
    requires from <= i <= j <= |s|
    ensures s[from..] == s[from..i] + s[i..j] + s[j..]
  {
  }

  lemma JoinCons(p: string, ps: seq<string>, sep: string)
    requires ps != []
    ensures Join([p] + ps, sep) == p + sep + Join(ps, sep)
  {
    assert ([p] + ps)[1..] == ps;
  }

  /** No piece contains the separator. */
  lemma {:induction false} PiecesFromAvoidSeparator(s: string, sep: string, from: nat)
    requires |sep| > 0 && from <= |s|
    ensures forall p :: p in PiecesFrom(s, sep, from) ==> !Contains(p, sep)
    decreases |s| - from
  {
    match IndexFrom(s, sep, from)
    case None =>
      if Contains(s[from..], sep) {
        var k: nat :| OccursAt(s[from..], sep, k);
        assert s[from..] == s[from..|s|];
        OccursInSlice(s, sep, from, |s|, k);
        assert false;
      }
    case Some(i) =>
      PiecesFromAvoidSeparator(s, sep, i + |sep|);
      if Contains(s[from..i], sep) {
        var k: nat :| OccursAt(s[from..i], sep, k);
        OccursInSlice(s, sep, from, i, k);
        assert false;
      }
  }

  /** Drops the empty strings at the end of `ps`, as `split` with limit 0 does. */
  function DropTrailingEmpty(ps: seq<string>): (r: seq<string>)
    ensures |r| <= |ps| && r == ps[..|r|]
    ensures r != [] ==> r[|r| - 1] != ""
    ensures forall i :: |r| <= i < |ps| ==> ps[i] == ""
  {
    if ps == [] then []
    else if ps[|ps| - 1] == "" then DropTrailingEmpty(ps[..|ps| - 1])
    else ps
  }

  /** `s.split(sep)` for a separator that has no regular-expression meaning:
      a string without the separator splits into itself alone (even the empty
      string); otherwise the pieces are cut at every occurrence, leading empty
      pieces are kept and trailing empty pieces are dropped. */
  function Split(s: string, sep: string): (r: seq<string>)
    requires |sep| > 0
    ensures !Contains(s, sep) ==> r == [s]
    ensures Contains(s, sep) ==> |r| <= |Pieces(s, sep)| && r == Pieces(s, sep)[..|r|]
    ensures Contains(s, sep) ==> forall i :: |r| <= i < |Pieces(s, sep)| ==> Pieces(s, sep)[i] == ""
    ensures Contains(s, sep) && r != [] ==> r[|r| - 1] != ""
  {
    if IndexFrom(s, sep, 0).None? then [s] else DropTrailingEmpty(Pieces(s, sep))
  }

  /** The text from `from` up to the next separator, or to the end. */
  function FieldFrom(s: string, sep: string, from: nat): (r: string)
    requires |sep| > 0 && from <= |s|
  {
    match IndexFrom(s, sep, from)
    case None => s[from..]
    case Some(j) => s[from..j]
  }

  /** When `split` yields at least two fields, the first is the text before the
      first separator and the second the text between the first and the second
      separator (or the end). */
  lemma SplitFirstTwoFields(s: string, sep: string, i: nat)
    requires |sep| > 0 && IndexFrom(s, sep, 0) == Some(i) && |Split(s, sep)| >= 2
    ensures i + |sep| <= |s| && Split(s, sep)[0] == s[..i] && Split(s, sep)[1] == FieldFrom(s, sep, i + |sep|)
  {
    var ps, r := Pieces(s, sep), Split(s, sep);
    SplitCases(s, sep);
    PiecesFirstTwo(s, sep, i);
    assert r[0] == ps[0] && r[1] == ps[1];
  }

  /** The first two pieces, when there is a separator. */
  lemma PiecesFirstTwo(s: string, sep: string, i: nat)
    requires |sep| > 0 && IndexFrom(s, sep, 0) == Some(i)
    ensures i + |sep| <= |s| && |Pieces(s, sep)| >= 2
    ensures Pieces(s, sep)[0] == s[..i] && Pieces(s, sep)[1] == FieldFrom(s, sep, i + |sep|)
  {
    var ps := Pieces(s, sep);
    var rest := PiecesFrom(s, sep, i + |sep|);
    PiecesFromCons(s, sep, 0, i);
    assert ps[1] == rest[0];
    PiecesFromHead(s, sep, i + |sep|);
  }

  lemma SplitCases(s: string, sep: string)
    requires |sep| > 0
    ensures IndexFrom(s, sep, 0).None? ==> Split(s, sep) == [s]
    ensures IndexFrom(s, sep, 0).Some? ==> Split(s, sep) == DropTrailingEmpty(Pieces(s, sep))
  {
  }

  /** A one-character separator does not occur before its first index. */
  lemma CharBeforeFirstIndex(s: string, c: char, i: nat)
    requires IndexFrom(s, [c], 0) == Some(i)
    ensures c !in s[..i]
  {
    forall k | 0 <= k < i ensures s[k] != c {
      assert !OccursAt(s, [c], k);
      assert s[k..k + 1] == [s[k]];
    }
  }

  /** Cutting at the first separator found from `from`. */
  lemma PiecesFromCons(s: string, sep: string, from: nat, i: nat)
    requires |sep| > 0 && from <= |s| && IndexFrom(s, sep, from) == Some(i)
    ensures PiecesFrom(s, sep, from) == [s[from..i]] + PiecesFrom(s, sep, i + |sep|)
  {
  }

  /** The first piece runs up to the first separator. */
  lemma PiecesFromHead(s: string, sep: string, from: nat)
    requires |sep| > 0 && from <= |s|
    ensures PiecesFrom(s, sep, from)[0] == FieldFrom(s, sep, from)
  {
    match IndexFrom(s, sep, from)
    case None =>
    case Some(j) =>
  }

  /** `split` loses nothing but separators and dropped empty pieces: joining
      all the pieces gives `s` back, and no field of `split` contains the
      separator. */
  lemma SplitDecomposes(s: string, sep: string)
    requires |sep| > 0
    ensures Join(Pieces(s, sep), sep) == s
    ensures forall k :: 0 <= k < |Split(s, sep)| ==> !Contains(Split(s, sep)[k], sep)
  {
    JoinPiecesFrom(s, sep, 0);
    PiecesFromAvoidSeparator(s, sep, 0);
    var r, ps := Split(s, sep), Pieces(s, sep);
    if Contains(s, sep) {
      forall k | 0 <= k < |r| ensures !Contains(r[k], sep) {
        assert r[k] == ps[k] && ps[k] in ps;
      }
    }
  }

  /** Joining the first `n + 1` pieces gives a prefix of joining them all. */
  lemma {:induction false} JoinHasPrefix(ps: seq<string>, sep: string, n: nat)
    requires n < |ps|
    ensures Join(ps[..n + 1], sep) <= Join(ps, sep)
  {
    if n == 0 {
      assert ps[..1] == [ps[0]];
      if |ps| > 1 {
        assert Join(ps, sep) == ps[0] + (sep + Join(ps[1..], sep));
      }
    } else {
      JoinHasPrefix(ps[1..], sep, n - 1);
      assert ps[1..][..n] == ps[..n + 1][1..];
    }
  }

  // ---- trim ----

  /** The characters `String.trim` removes: code points up to U+0020. */
  predicate IsTrimmable(c: char) {
    c as int <= 0x20
  }

  function SkipLeading(s: string, i: nat): (k: nat)
    requires i <= |s|
    ensures i <= k <= |s|
    ensures forall m :: i <= m < k ==> IsTrimmable(s[m])
    ensures k < |s| ==> !IsTrimmable(s[k])
    decreases |s| - i
  {
    if i < |s| && IsTrimmable(s[i]) then SkipLeading(s, i + 1) else i
  }

  function SkipTrailing(s: string, lo: nat, j: nat): (k: nat)
    requires lo <= j <= |s|
    ensures lo <= k <= j
    ensures forall m :: k <= m < j ==> IsTrimmable(s[m])
    ensures lo < k ==> !IsTrimmable(s[k - 1])
    decreases j
  {
    if lo < j && IsTrimmable(s[j - 1]) then SkipTrailing(s, lo, j - 1) else j
  }

  /** `s.trim()`: the longest infix of `s` that neither starts nor ends with a
      trimmable character, everything around it being trimmable. */
  function Trim(s: string): (r: string)
    ensures r != [] ==> !IsTrimmable(r[0]) && !IsTrimmable(r[|r| - 1])
    ensures exists lo, hi :: (0 <= lo <= hi <= |s| && r == s[lo..hi] &&
      (forall m :: 0 <= m < lo ==> IsTrimmable(s[m])) &&
      (forall m :: hi <= m < |s| ==> IsTrimmable(s[m])))
  {
    var lo := SkipLeading(s, 0);
    var hi := SkipTrailing(s, lo, |s|);
    s[lo..hi]
  }

  // ---- replace ----

  /** `s.replace(c, "")`: every occurrence of `c` removed, everything else kept
      in order. */
  function RemoveChar(s: string, c: char): (r: string)
    ensures c !in r
    ensures |r| <= |s|
    ensures forall x :: x != c ==> multiset(r)[x] == multiset(s)[x]
    ensures c !in s ==> r == s
  {
    if s == [] then []
    else
      var init := s[..|s| - 1];
      var last := s[|s| - 1];
      assert s == init + [last];
      if last == c then RemoveChar(init, c) else RemoveChar(init, c) + [last]
  }

  /** Removing a character from one character keeps it exactly when it is
      not the removed one. */
  lemma RemoveCharSingle(x: char, c: char)
    ensures RemoveChar([x], c) == if x == c then [] else [x]
  {
    assert [x][..0] == [];
  }

  /** Removal works piece by piece: the kept characters of `a + b` are those
      of `a` followed by those of `b`, so their order is preserved. */
  lemma {:induction false} RemoveCharAppend(a: string, b: string, c: char)
    ensures RemoveChar(a + b, c) == RemoveChar(a, c) + RemoveChar(b, c)
    decreases |b|
  {
    if b == [] {
      assert a + b == a;
    } else {
      var init, last := b[..|b| - 1], b[|b| - 1];
      var ab := a + b;
      assert ab[..|ab| - 1] == a + init && ab[|ab| - 1] == last;
      var kept := if last == c then [] else [last];
      var ra, ri, rai := RemoveChar(a, c), RemoveChar(init, c), RemoveChar(a + init, c);
      RemoveCharAppend(a, init, c);
      assert rai == ra + ri;
      RemoveCharLast(ab, c);
      assert RemoveChar(ab, c) == rai + kept;
      RemoveCharLast(b, c);
      assert RemoveChar(b, c) == ri + kept;
      assert rai + kept == ra + (ri + kept);
    }
  }

  /** One step of the removal: the last character is kept unless it is `c`. */
  lemma RemoveCharLast(s: string, c: char)
    requires s != []
    ensures RemoveChar(s, c) ==
      RemoveChar(s[..|s| - 1], c) + (if s[|s| - 1] == c then [] else [s[|s| - 1]])
  {
  }

  // ---- hashCode ----

  const TWO_TO_32: int := 0x1_0000_0000
  const MIN_INT32: int := -0x8000_0000

  /** Java's `int` arithmetic: reduces an unbounded integer to the 32-bit
      two's-complement value congruent to it. */
  function ToInt32(x: int): (r: int)
    ensures MIN_INT32 <= r < MIN_INT32 + TWO_TO_32
    ensures (x - r) % TWO_TO_32 == 0
  {
    (x - MIN_INT32) % TWO_TO_32 + MIN_INT32
  }

  /** `String.hashCode`: `h = 31 * h + c` over the characters with `int`
      wrap-around. */
  function StringHash(s: string): (h: int)
    ensures MIN_INT32 <= h < MIN_INT32 + TWO_TO_32
  {
    if s == [] then 0 else ToInt32(31 * StringHash(s[..|s| - 1]) + s[|s| - 1] as int)
  }

  /** The polynomial `s[0]*31^(n-1) + ... + s[n-1]` over unbounded integers. */
  function HashPolynomial(s: string): int {
    if s == [] then 0 else 31 * HashPolynomial(s[..|s| - 1]) + s[|s| - 1] as int
  }

  lemma MultipleOfTwoTo32(t: int)
    ensures (TWO_TO_32 * t) % TWO_TO_32 == 0
  {
  }

  lemma QuotientOfMultiple(d: int)
    requires d % TWO_TO_32 == 0
    ensures d == TWO_TO_32 * (d / TWO_TO_32)
  {
  }

  /** The documented formula for `String.hashCode`: the wrapped hash is the
      polynomial modulo 2^32. */
  lemma {:induction false} StringHashIsPolynomial(s: string)
    ensures (HashPolynomial(s) - StringHash(s)) % TWO_TO_32 == 0
  {
    if s != [] {
      var init, c := s[..|s| - 1], s[|s| - 1] as int;
      StringHashIsPolynomial(init);
      var a, b := HashPolynomial(init), StringHash(init);
      QuotientOfMultiple(a - b);
      var k := (a - b) / TWO_TO_32;
      var x := 31 * b + c;
      var y := ToInt32(x);
      QuotientOfMultiple(x - y);
      var q := (x - y) / TWO_TO_32;
      assert HashPolynomial(s) == 31 * a + c;
      assert StringHash(s) == y;
      assert HashPolynomial(s) - StringHash(s) == TWO_TO_32 * (31 * k + q);
      MultipleOfTwoTo32(31 * k + q);
    }
  }

  /** Adding 31 and wrapping again, as `31 + fullName.hashCode()` does, keeps
      the hash congruent to `31 +` the polynomial. */
  lemma OffsetHashIsPolynomial(s: string)
    ensures (ToInt32(31 + StringHash(s)) - 31 - HashPolynomial(s)) % TWO_TO_32 == 0
  {
    var inner := StringHash(s);
    var h := ToInt32(31 + inner);
    var p := HashPolynomial(s);
    StringHashIsPolynomial(s);
    QuotientOfMultiple(p - inner);
    QuotientOfMultiple(31 + inner - h);
    var a := (p - inner) / TWO_TO_32;
    var b := (31 + inner - h) / TWO_TO_32;
    assert h - 31 - p == TWO_TO_32 * (-a - b);
    MultipleOfTwoTo32(-a - b);
  }
}
