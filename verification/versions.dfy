/** compareVersions, which both updaters carry in identical copies
    (cmd/starter.go and cmd/client/updater.go): dotted versions compared
    component by component as integers, a missing or unparsable component
    counting as 0. */
module Versions {
  import opened Text

  /** The numeric components of a dotted version, each `.`-separated part
      read with strconv.Atoi and a syntax error read as 0. */
  function Components(v: string): seq<int> {
    var parts := Split(v, '.');
    seq(|parts|, i requires 0 <= i < |parts| => AtoiOrZero(parts[i]))
  }

  /** Component `i`, or 0 past the end. */
  function At(c: seq<int>, i: nat): int {
    if i < |c| then c[i] else 0
  }

  /** The components from position `i` on. */
  function Drop(c: seq<int>, i: nat): seq<int> {
    if i < |c| then c[i..] else []
  }

  /** Lexicographic comparison of two component lists padded with zeros:
      the first position where they differ decides. */
  function Lex(x: seq<int>, y: seq<int>): (r: int)
    ensures r == -1 || r == 0 || r == 1
    decreases |x| + |y|
  {
    if x == [] && y == [] then 0
    else if At(x, 0) > At(y, 0) then 1
    else if At(x, 0) < At(y, 0) then -1
    else Lex(Drop(x, 1), Drop(y, 1))
  }

  /** The order compareVersions computes on version strings. */
  function Compare(a: string, b: string): int {
    Lex(Components(a), Components(b))
  }

  /** compareVersions: walks the components of both versions up to the
      longer length and returns at the first difference. */
  method CompareVersions(a: string, b: string) returns (r: int)
    ensures r == Compare(a, b)
    ensures r == -1 || r == 0 || r == 1
  {
    var aParts := Split(a, '.');
    var bParts := Split(b, '.');
    ghost var x, y := Components(a), Components(b);
    var n := if |aParts| > |bParts| then |aParts| else |bParts|;
    var i := 0;
    while i < n
      invariant 0 <= i <= n
      invariant forall j :: 0 <= j < i ==> At(x, j) == At(y, j)
    {
      var ai := 0;
      if i < |aParts| {
        ai := AtoiOrZero(aParts[i]);
      }
      var bi := 0;
      if i < |bParts| {
        bi := AtoiOrZero(bParts[i]);
      }
      assert ai == At(x, i) && bi == At(y, i);
      if ai > bi {
        LexFirstDifference(x, y, i);
        return 1;
      }
      if ai < bi {
        LexFirstDifference(x, y, i);
        return -1;
      }
      i := i + 1;
    }
    LexEqualIff(x, y);
    return 0;
  }

  /** Equal components before `k` leave the decision to the rest. */
  lemma {:induction false} LexDrop(x: seq<int>, y: seq<int>, k: nat)
    requires forall j :: 0 <= j < k ==> At(x, j) == At(y, j)
    ensures Lex(x, y) == Lex(Drop(x, k), Drop(y, k))
  {
    if k > 0 {
      LexDrop(x, y, k - 1);
      var x', y' := Drop(x, k - 1), Drop(y, k - 1);
      assert At(x', 0) == At(x, k - 1) && At(y', 0) == At(y, k - 1);
      assert Drop(x', 1) == Drop(x, k) && Drop(y', 1) == Drop(y, k);
    }
  }

  /** The first differing component decides the comparison. */
  lemma LexFirstDifference(x: seq<int>, y: seq<int>, k: nat)
    requires forall j :: 0 <= j < k ==> At(x, j) == At(y, j)
    requires At(x, k) != At(y, k)
    ensures Lex(x, y) == if At(x, k) > At(y, k) then 1 else -1
  {
    LexDrop(x, y, k);
    assert At(Drop(x, k), 0) == At(x, k) && At(Drop(y, k), 0) == At(y, k);
  }

  /** Two component lists compare equal exactly when they agree at every
      position once padded with zeros. */
  lemma {:induction false} LexEqualIff(x: seq<int>, y: seq<int>)
    ensures Lex(x, y) == 0 <==> forall j: nat :: At(x, j) == At(y, j)
    decreases |x| + |y|
  {
    if x == [] && y == [] {
    } else if At(x, 0) != At(y, 0) {
    } else {
      var x', y' := Drop(x, 1), Drop(y, 1);
      LexEqualIff(x', y');
      forall j: nat ensures At(x', j) == At(x, j + 1) && At(y', j) == At(y, j + 1) { }
      if Lex(x', y') == 0 {
        forall j: nat ensures At(x, j) == At(y, j) {
          if j > 0 {
            assert At(x', j - 1) == At(y', j - 1);
          }
        }
      } else {
        var j: nat :| At(x', j) != At(y', j);
        assert At(x, j + 1) != At(y, j + 1);
      }
    }
  }

  /** Every version equals itself. */
  lemma CompareReflexive(a: string)
    ensures Compare(a, a) == 0
  {
    LexEqualIff(Components(a), Components(a));
  }

  /** Swapping the arguments negates the result. */
  lemma {:induction false} LexAntisymmetric(x: seq<int>, y: seq<int>)
    ensures Lex(x, y) == -Lex(y, x)
    decreases |x| + |y|
  {
    if !(x == [] && y == []) && At(x, 0) == At(y, 0) {
      LexAntisymmetric(Drop(x, 1), Drop(y, 1));
    }
  }

  /** compareVersions(a, b) == -compareVersions(b, a). */
  lemma CompareAntisymmetric(a: string, b: string)
    ensures Compare(a, b) == -Compare(b, a)
  {
    LexAntisymmetric(Components(a), Components(b));
  }

  /** "Not newer than" is transitive. */
  lemma {:induction false} LexTransitive(x: seq<int>, y: seq<int>, z: seq<int>)
    requires Lex(x, y) <= 0 && Lex(y, z) <= 0
    ensures Lex(x, z) <= 0
    decreases |x| + |y| + |z|
  {
    if x == [] && y == [] && z == [] {
    } else if At(x, 0) < At(z, 0) {
    } else {
      var x', y', z' := Drop(x, 1), Drop(y, 1), Drop(z, 1);
      assert At(x, 0) == At(y, 0) == At(z, 0);
      assert Lex(x, y) == Lex(x', y') && Lex(y, z) == Lex(y', z') by {
        assert x == [] && y == [] ==> x' == [] && y' == [];
        assert y == [] && z == [] ==> y' == [] && z' == [];
      }
      LexTransitive(x', y', z');
    }
  }

  /** compareVersions is a total preorder: "not newer than" is transitive. */
  lemma CompareTransitive(a: string, b: string, c: string)
    requires Compare(a, b) <= 0 && Compare(b, c) <= 0
    ensures Compare(a, c) <= 0
  {
    LexTransitive(Components(a), Components(b), Components(c));
  }

  /** The decimal parts of a version written from its components. */
  function DecimalParts(ns: seq<nat>): (parts: seq<string>)
    ensures |parts| == |ns|
    ensures forall i :: 0 <= i < |parts| ==> parts[i] == DecimalString(ns[i])
  {
    seq(|ns|, i requires 0 <= i < |ns| => DecimalString(ns[i]))
  }

  /** The dotted version with the given components, such as "1.10.0". */
  function VersionString(ns: seq<nat>): string {
    Join(DecimalParts(ns), '.')
  }

  /** Decimal parts are free of dots and read back as their numbers. */
  lemma DecimalPartsRead(ns: seq<nat>)
    ensures forall i :: 0 <= i < |ns| ==>
      '.' !in DecimalParts(ns)[i] && AtoiOrZero(DecimalParts(ns)[i]) == ns[i]
  {
    var parts := DecimalParts(ns);
    forall i | 0 <= i < |parts| ensures '.' !in parts[i] && AtoiOrZero(parts[i]) == ns[i] {
      AtoiDecimal(ns[i]);
    }
  }

  /** Reading a written version gives back its components. */
  lemma ComponentsOfVersionString(ns: seq<nat>)
    requires |ns| >= 1
    ensures Components(VersionString(ns)) == ns
  {
    DecimalPartsRead(ns);
    SplitJoin(DecimalParts(ns), '.');
  }

  /** Written versions compare as their component lists, numerically:
      "1.10" is newer than "1.9". */
  lemma CompareVersionStrings(ns: seq<nat>, ms: seq<nat>)
    requires |ns| >= 1 && |ms| >= 1
    ensures Compare(VersionString(ns), VersionString(ms)) == Lex(ns, ms)
  {
    ComponentsOfVersionString(ns);
    ComponentsOfVersionString(ms);
  }

  /** Padding with a zero component changes no comparison. */
  lemma LexTrailingZero(x: seq<int>)
    ensures Lex(x, x + [0]) == 0 && Lex(x + [0], x) == 0
  {
    var x' := x + [0];
    forall j: nat ensures At(x, j) == At(x', j) {
      if j < |x| { assert x'[j] == x[j]; }
    }
    LexEqualIff(x, x');
    LexAntisymmetric(x, x');
  }

  /** A trailing component 0 changes nothing: "1.2" and "1.2.0" are equal. */
  lemma TrailingZeroIgnored(ns: seq<nat>)
    requires |ns| >= 1
    ensures Compare(VersionString(ns), VersionString(ns + [0])) == 0
  {
    CompareVersionStrings(ns, ns + [0]);
    LexTrailingZero(ns);
  }

  /** A trailing part that is not a number counts as 0: "1.beta" equals "1". */
  lemma NonNumericPartIsZero(ns: seq<nat>, tail: string)
    requires |ns| >= 1
    requires '.' !in tail && Atoi(tail).None?
    ensures Compare(VersionString(ns) + "." + tail, VersionString(ns)) == 0
  {
    var parts := DecimalParts(ns);
    var all := parts + [tail];
    DecimalPartsRead(ns);
    JoinSnoc(parts, tail);
    SplitJoin(all, '.');
    assert Components(Join(all, '.')) == ns + [0];
    ComponentsOfVersionString(ns);
    LexTrailingZero(ns);
  }
  /** Joining one more piece appends a separator and the piece. */
  lemma {:induction false} JoinSnoc(parts: seq<string>, last: string)
    requires |parts| >= 1
    ensures Join(parts + [last], '.') == Join(parts, '.') + "." + last
    decreases |parts|
  {
    if |parts| > 1 {
      JoinSnoc(parts[1..], last);
      assert (parts + [last])[1..] == parts[1..] + [last];
    }
  }
}
