/** A traffic sign detected by Mapillary, identified by its composite full name
    `category--type--country[--variant]`. */
module Signs {
  import opened Wrappers
  import opened JavaString

  /** The separator between the fields of a composite name. */
  const SEPARATOR: string := "--"

  /** A sign record; all fields are fixed at construction. (`type` is a
      reserved word in Dafny, hence `signType`.) */
  datatype Sign = Sign(
    fullName: string,
    category: string,
    signType: string,
    country: string,
    variant: Option<string>)

  /** `fullName.split("--")`. */
  function Parts(name: string): (r: seq<string>) {
    Split(name, SEPARATOR)
  }

  /** The names the constructor accepts: those splitting into at least three fields. */
  predicate IsCompositeName(name: string) {
    |Parts(name)| >= 3
  }

  /** The constructor: the fields are the first three parts of the name, and
      the variant is the fourth part exactly when there are four parts. A name
      with fewer than three parts makes the constructor fail, hence the
      precondition. */
  function MakeSign(fullName: string): (r: Sign)
    requires IsCompositeName(fullName)
    ensures r.fullName == fullName
    ensures r.category == Parts(fullName)[0]
    ensures r.signType == Parts(fullName)[1]
    ensures r.country == Parts(fullName)[2]
    ensures r.variant.Some? <==> |Parts(fullName)| == 4
    ensures r.variant.Some? ==> r.variant.value == Parts(fullName)[3]
  {
    var parts := Parts(fullName);
    Sign(fullName, parts[0], parts[1], parts[2], if |parts| == 4 then Some(parts[3]) else None)
  }

  /** A sign as the constructor builds it. */
  predicate WellFormed(s: Sign) {
    IsCompositeName(s.fullName) && s == MakeSign(s.fullName)
  }

  /** Which names the constructor accepts, stated without `split`'s trimming:
      the name must have a non-empty piece after its second separator. So
      `a--b--` and `----` are refused although they contain two separators. */
  lemma CompositeNameHasThirdPiece(name: string)
    ensures IsCompositeName(name) <==>
      exists i :: 2 <= i < |Pieces(name, SEPARATOR)| && Pieces(name, SEPARATOR)[i] != ""
  {
    var ps := Pieces(name, SEPARATOR);
    if !Contains(name, SEPARATOR) {
      assert IndexFrom(name, SEPARATOR, 0).None?;
      assert |ps| == 1;
    } else if IsCompositeName(name) {
      var r := Parts(name);
      assert r[|r| - 1] == ps[|r| - 1] != "";
    } else {
      var r := Parts(name);
      forall i | 2 <= i < |ps| ensures ps[i] == "" {
      }
    }
  }

  /** The name contains two separators that do not overlap. This is the
      documented regular expression `.*--.*--.*` for names without line
      terminators, which `.` does not match. */
  predicate HasTwoSeparators(name: string) {
    exists i, j :: 0 <= i && i + |SEPARATOR| <= j <= |name| &&
      OccursAt(name, SEPARATOR, i) && OccursAt(name, SEPARATOR, j)
  }

  /** Every name the constructor accepts contains two non-overlapping separators. */
  lemma CompositeNameHasTwoSeparators(name: string)
    requires IsCompositeName(name)
    ensures HasTwoSeparators(name)
  {
    var ps := Pieces(name, SEPARATOR);
    var i := IndexFrom(name, SEPARATOR, 0).value;
    assert ps == [name[..i]] + PiecesFrom(name, SEPARATOR, i + |SEPARATOR|);
    var j := IndexFrom(name, SEPARATOR, i + |SEPARATOR|).value;
    assert OccursAt(name, SEPARATOR, i) && OccursAt(name, SEPARATOR, j);
  }

  /** The converse fails: `a--b--` contains two non-overlapping separators
      (and matches the documented expression), but its
      trailing empty field is dropped by `split`, so the constructor refuses it. */
  lemma TrailingEmptyFieldRefused()
    ensures HasTwoSeparators("a--b--")
    ensures Parts("a--b--") == ["a", "b"] && !IsCompositeName("a--b--")
  {
    var s := "a--b--";
    PiecesOfTrailingSeparator();
    assert IndexFrom(s, SEPARATOR, 0).Some?;
    assert DropTrailingEmpty(["a", "b", ""]) == ["a", "b"] by {
      assert ["a", "b", ""][..2] == ["a", "b"];
    }
    assert OccursAt(s, SEPARATOR, 1) && OccursAt(s, SEPARATOR, 4);
  }

  /** `a--b--` is cut into `a`, `b` and an empty last piece. */
  lemma PiecesOfTrailingSeparator()
    ensures IndexFrom("a--b--", SEPARATOR, 0) == Some(1)
    ensures Pieces("a--b--", SEPARATOR) == ["a", "b", ""]
  {
    var s := "a--b--";
    assert s[0..2] != "--" by { assert s[0..2][0] == 'a'; }
    assert s[1..3] == "--";
    assert IndexFrom(s, "--", 0) == Some(1);
    assert s[3..5] != "--" by { assert s[3..5][0] == 'b'; }
    assert s[4..6] == "--";
    assert IndexFrom(s, "--", 3) == Some(4);
    assert IndexFrom(s, "--", 6) == None;
    assert s[6..] == "";
    assert PiecesFrom(s, "--", 6) == [""];
    PiecesFromCons(s, "--", 3, 4);
    assert s[3..4] == "b";
    PiecesFromCons(s, "--", 0, 1);
    assert s[0..1] == "a";
  }

  /** The fields spell out the name: it begins with
      `category--type--country`, followed by `--variant` when there is a
      variant, and no field contains the separator. */
  lemma FieldsSpellName(fullName: string)
    requires IsCompositeName(fullName)
    ensures var s := MakeSign(fullName);
      && s.category + SEPARATOR + s.signType + SEPARATOR + s.country <= fullName
      && !Contains(s.category, SEPARATOR)
      && !Contains(s.signType, SEPARATOR)
      && !Contains(s.country, SEPARATOR)
    ensures var s := MakeSign(fullName);
      s.variant.Some? ==>
        && s.category + SEPARATOR + s.signType + SEPARATOR + s.country + SEPARATOR + s.variant.value <= fullName
        && s.variant.value != ""
        && !Contains(s.variant.value, SEPARATOR)
  {
    PartsSpellName(fullName);
  }

  /** `FieldsSpellName`, stated on the parts of the name. */
  lemma PartsSpellName(name: string)
    requires IsCompositeName(name)
    ensures var p := Parts(name);
      && p[0] + SEPARATOR + p[1] + SEPARATOR + p[2] <= name
      && !Contains(p[0], SEPARATOR) && !Contains(p[1], SEPARATOR) && !Contains(p[2], SEPARATOR)
    ensures var p := Parts(name);
      |p| == 4 ==>
        && p[0] + SEPARATOR + p[1] + SEPARATOR + p[2] + SEPARATOR + p[3] <= name
        && p[3] != "" && !Contains(p[3], SEPARATOR)
  {
    var parts := Parts(name);
    var c, t, k := parts[0], parts[1], parts[2];
    SplitDecomposes(name, SEPARATOR);
    PartsPrefix(name, 2);
    assert parts[..3] == [c, t, k];
    JoinUnfold3(c, t, k);
    if |parts| == 4 {
      var v := parts[3];
      assert Contains(name, SEPARATOR) && v == parts[|parts| - 1];
      PartsPrefix(name, 3);
      assert parts[..4] == [c, t, k, v];
      JoinUnfold4(c, t, k, v);
    }
  }

  /** The first `n + 1` parts, joined, begin the name. */
  lemma PartsPrefix(name: string, n: nat)
    requires n < |Parts(name)|
    ensures Join(Parts(name)[..n + 1], SEPARATOR) <= name
  {
    var parts := Parts(name);
    if Contains(name, SEPARATOR) {
      var ps := Pieces(name, SEPARATOR);
      SplitDecomposes(name, SEPARATOR);
      JoinHasPrefix(ps, SEPARATOR, n);
      assert parts[..n + 1] == ps[..n + 1];
    } else {
      assert parts[..n + 1] == [name];
    }
  }

  lemma JoinUnfold3(a: string, b: string, c: string)
    ensures Join([a, b, c], SEPARATOR) == a + SEPARATOR + b + SEPARATOR + c
  {
    assert [a, b, c][1..] == [b, c];
    assert [b, c][1..] == [c];
    assert Join([b, c], SEPARATOR) == b + SEPARATOR + c;
    assert Join([a, b, c], SEPARATOR) == a + SEPARATOR + (b + SEPARATOR + c);
  }

  lemma JoinUnfold4(a: string, b: string, c: string, d: string)
    ensures Join([a, b, c, d], SEPARATOR) == a + SEPARATOR + b + SEPARATOR + c + SEPARATOR + d
  {
    assert [a, b, c, d][1..] == [b, c, d];
    JoinUnfold3(b, c, d);
    assert Join([a, b, c, d], SEPARATOR) == a + SEPARATOR + (b + SEPARATOR + c + SEPARATOR + d);
  }

  /** `toString()`: the full name. */
  function ToString(s: Sign): (r: string)
    ensures r == s.fullName
  {
    s.fullName
  }

  /** `equals(o)`, with `None` for a `null` argument: two signs are equal when
      their full names are. */
  function Equals(s: Sign, o: Option<Sign>): (r: bool)
    ensures r <==> o.Some? && o.value.fullName == s.fullName
  {
    match o
    case None => false
    case Some(other) => s.fullName == other.fullName
  }

  /** `hashCode()`: `31 + fullName.hashCode()` in 32-bit arithmetic. */
  function HashCode(s: Sign): (h: int)
    ensures MIN_INT32 <= h < MIN_INT32 + TWO_TO_32
    ensures (h - 31 - HashPolynomial(s.fullName)) % TWO_TO_32 == 0
  {
    OffsetHashIsPolynomial(s.fullName);
    ToInt32(31 + StringHash(s.fullName))
  }

  /** `equals` is an equivalence relation, agrees with comparing `toString()`,
      and equal signs have equal hash codes. */
  lemma EqualsContract(a: Sign, b: Sign, c: Sign)
    ensures Equals(a, Some(a))
    ensures !Equals(a, None)
    ensures Equals(a, Some(b)) <==> Equals(b, Some(a))
    ensures Equals(a, Some(b)) && Equals(b, Some(c)) ==> Equals(a, Some(c))
    ensures Equals(a, Some(b)) <==> ToString(a) == ToString(b)
    ensures Equals(a, Some(b)) ==> HashCode(a) == HashCode(b)
  {
  }

  /** Among signs the constructor builds, `equals` is identity of values: two
      signs built from the same name are the same sign, with the same hash. */
  lemma EqualsIsValueEquality(a: Sign, b: Sign)
    requires WellFormed(a) && WellFormed(b)
    ensures Equals(a, Some(b)) <==> a == b
  {
  }
}
