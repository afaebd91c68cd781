/**
  ComparablePair.java: an immutable pair whose order is that of its first
  component alone, while equality looks at both. Either component may be
  null. getA and getB are the fields a and b.
 */
module ComparablePair {
  import opened Nullable
  import opened Text

  datatype Pair<A, B> = Pair(a: Option<A>, b: Option<B>)

  /** The argument of equals(Object): a pair, or any other object or null. */
  datatype Obj<A, B> = APair(pair: Pair<A, B>) | Other

  /**
    equals(o): o is a pair and each of its components is null exactly
    when this one's is, and otherwise equal to it.
   */
  function Equals<A(==), B(==)>(p: Pair<A, B>, o: Obj<A, B>): (r: bool)
    ensures r <==> o == APair(p)
  {
    match o
    case Other => false
    case APair(q) =>
      var sameA := (q.a.Some? && p.a.Some? && q.a.value == p.a.value) || (q.a.None? && p.a.None?);
      var sameB := (q.b.Some? && p.b.Some? && q.b.value == p.b.value) || (q.b.None? && p.b.None?);
      sameA && sameB
  }

  /** equals is an equivalence on pairs. */
  lemma EqualsIsEquivalence<A, B>(p: Pair<A, B>, q: Pair<A, B>, s: Pair<A, B>)
    ensures Equals(p, APair(p))
    ensures Equals(p, APair(q)) == Equals(q, APair(p))
    ensures Equals(p, APair(q)) && Equals(q, APair(s)) ==> Equals(p, APair(s))
  {
  }

  /**
    compareTo(q): the first components compared by cmp, TYPEA's own
    compareTo. A null first component on either side throws.
   */
  function CompareTo<A, B>(p: Pair<A, B>, q: Pair<A, B>, cmp: (A, A) -> int): (r: Result<int>)
    ensures r.Err? <==> p.a.None? || q.a.None?
    ensures r.Ok? ==> r.value == cmp(p.a.value, q.a.value)
  {
    if p.a.None? || q.a.None? then Err(NullOperand) else Ok(cmp(p.a.value, q.a.value))
  }

  /** The second components never affect the comparison. */
  lemma CompareIgnoresSecond<A, B>(p: Pair<A, B>, q: Pair<A, B>, p': Pair<A, B>, q': Pair<A, B>, cmp: (A, A) -> int)
    requires p.a == p'.a && q.a == q'.a
    ensures CompareTo(p, q, cmp) == CompareTo(p', q', cmp)
  {
  }

  /**
    With a comparison that puts a value level with itself, pairs that
    share a first component but differ in the second compare as 0 and
    yet are not equal: the order is not consistent with equals.
   */
  lemma LevelButNotEqual<A, B>(x: A, b1: B, b2: B, cmp: (A, A) -> int)
    requires cmp(x, x) == 0 && b1 != b2
    ensures CompareTo(Pair(Some(x), Some(b1)), Pair(Some(x), Some(b2)), cmp) == Ok(0)
    ensures !Equals(Pair(Some(x), Some(b1)), APair(Pair(Some(x), Some(b2))))
  {
  }

  /** StringBuffer.append of a possibly-null reference: "null" for null. */
  function Show<T>(x: Option<T>, show: T -> string): string
  {
    if x.None? then "null" else show(x.value)
  }

  /** toString(): "(a, b)". */
  function ToString<A, B>(p: Pair<A, B>, showA: A -> string, showB: B -> string): (s: string)
    ensures |s| == |Show(p.a, showA)| + |Show(p.b, showB)| + 4
    ensures s[0] == '(' && s[|s| - 1] == ')'
  {
    "(" + Show(p.a, showA) + ", " + Show(p.b, showB) + ")"
  }

  /** The position of the first comma in s, or |s| if there is none. */
  function FirstComma(s: string): (k: nat)
    ensures k <= |s| && (k < |s| ==> s[k] == ',')
    ensures forall j :: 0 <= j < k ==> s[j] != ','
  {
    if |s| == 0 then 0
    else if s[0] == ',' then 0
    else 1 + FirstComma(s[1..])
  }

  /** A comma-free first component can be read back out of toString. */
  lemma {:induction false} ToStringSplits<A, B>(p: Pair<A, B>, showA: A -> string, showB: B -> string)
    requires forall k :: 0 <= k < |Show(p.a, showA)| ==> Show(p.a, showA)[k] != ','
    ensures var s := ToString(p, showA, showB); var c := FirstComma(s);
      c == |Show(p.a, showA)| + 1 && s[1..c] == Show(p.a, showA) && s[c + 2..|s| - 1] == Show(p.b, showB)
  {
    var sa, sb := Show(p.a, showA), Show(p.b, showB);
    var s := ToString(p, showA, showB);
    assert s == "(" + sa + ", " + sb + ")";
    var c := FirstComma(s);
    assert s[|sa| + 1] == ',';
    forall j | 0 <= j < |sa| + 1
      ensures s[j] != ','
    {
      if j > 0 {
        assert s[j] == sa[j - 1];
      }
    }
    assert c == |sa| + 1;
    assert s[1..c] == sa;
    assert s[c + 2..|s| - 1] == sb;
  }

  /** "null" is not the rendering of any int. */
  lemma NullIsNoInt(n: int)
    ensures IntToString(n) != "null"
  {
    var s := IntToString(n);
    assert s[0] == '-' || '0' <= s[0] <= '9';
  }

  /** An int, or null, rendered as toString renders a component. */
  lemma ShowIntInjective(x: Option<int>, y: Option<int>)
    requires Show(x, IntToString) == Show(y, IntToString)
    ensures x == y
  {
    if x.Some? && y.Some? {
      IntToStringInjective(x.value, y.value);
    } else if x.Some? {
      NullIsNoInt(x.value);
    } else if y.Some? {
      NullIsNoInt(y.value);
    }
  }

  /** An int, or null, renders without a comma. */
  lemma ShowIntNoComma(x: Option<int>)
    ensures forall k :: 0 <= k < |Show(x, IntToString)| ==> Show(x, IntToString)[k] != ','
  {
    if x.None? {
      assert Show(x, IntToString) == "null";
    }
  }

  /** Pairs of ints (or nulls) that render alike are equal: toString loses nothing. */
  lemma IntPairsRenderDistinctly(p: Pair<int, int>, q: Pair<int, int>)
    requires ToString(p, IntToString, IntToString) == ToString(q, IntToString, IntToString)
    ensures Equals(p, APair(q))
  {
    ShowIntNoComma(p.a);
    ShowIntNoComma(q.a);
    ToStringSplits(p, IntToString, IntToString);
    ToStringSplits(q, IntToString, IntToString);
    ShowIntInjective(p.a, q.a);
    ShowIntInjective(p.b, q.b);
  }
}
