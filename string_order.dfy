/**
 * Python's ordering of `str` values: lexicographic by code point, a proper
 * prefix coming first. `sorted` on a list of file names uses it.
 */
module StringOrder {

  /** `a < b` on Python strings. */
  predicate Below(a: string, b: string) {
    if a == [] then b != []
    else if b == [] then false
    else a[0] < b[0] || (a[0] == b[0] && Below(a[1..], b[1..]))
  }

  lemma {:induction false} BelowIrreflexive(a: string)
    ensures !Below(a, a)
  {
    if a != [] {
      BelowIrreflexive(a[1..]);
    }
  }

  lemma {:induction false} BelowTransitive(a: string, b: string, c: string)
    requires Below(a, b) && Below(b, c)
    ensures Below(a, c)
  {
    if a != [] && a[0] == b[0] && b[0] == c[0] {
      BelowTransitive(a[1..], b[1..], c[1..]);
    }
  }

  lemma {:induction false} BelowTotal(a: string, b: string)
    requires a != b
    ensures Below(a, b) || Below(b, a)
  {
    if a != [] && b != [] && a[0] == b[0] {
      assert a == [a[0]] + a[1..] && b == [b[0]] + b[1..];
      BelowTotal(a[1..], b[1..]);
    }
  }

  /** Strictly increasing, hence also free of duplicates. */
  predicate StrictlySorted(xs: seq<string>) {
    forall i, j :: 0 <= i < j < |xs| ==> Below(xs[i], xs[j])
  }

  /** Put `x` into its place in the sorted `ys`, unless it is already there. */
  function Insert(x: string, ys: seq<string>): seq<string> {
    if ys == [] then [x]
    else if x == ys[0] then ys
    else if Below(x, ys[0]) then [x] + ys
    else [ys[0]] + Insert(x, ys[1..])
  }

  /** Inserting keeps a sequence strictly sorted and adds exactly `x` to its elements. */
  lemma {:induction false} InsertSorted(x: string, ys: seq<string>)
    requires StrictlySorted(ys)
    ensures StrictlySorted(Insert(x, ys))
    ensures forall y :: y in Insert(x, ys) <==> y == x || y in ys
  {
    if ys == [] {
    } else if x == ys[0] {
    } else if Below(x, ys[0]) {
      forall j | 0 < j < |ys| ensures Below(x, ys[j]) {
        BelowTransitive(x, ys[0], ys[j]);
      }
      var r := [x] + ys;
      forall i, j | 0 <= i < j < |r| ensures Below(r[i], r[j]) {
        if i > 0 { assert r[i] == ys[i - 1]; }
        assert r[j] == ys[j - 1];
      }
    } else {
      BelowTotal(x, ys[0]);
      var tail := ys[1..];
      InsertSorted(x, tail);
      var rest := Insert(x, tail);
      forall y | y in rest ensures Below(ys[0], y) {
        if y != x {
          var j :| 0 <= j < |tail| && tail[j] == y;
          assert ys[j + 1] == y;
        }
      }
      var r := [ys[0]] + rest;
      forall i, j | 0 <= i < j < |r| ensures Below(r[i], r[j]) {
        assert r[j] == rest[j - 1] && r[j] in rest;
        if i > 0 { assert r[i] == rest[i - 1]; }
      }
      forall y ensures y in r <==> y == x || y in ys {
        assert y in ys <==> y == ys[0] || y in tail;
      }
    }
  }

  /** `sorted(set(xs))`. */
  function SortedSet(xs: seq<string>): seq<string> {
    if xs == [] then [] else Insert(xs[|xs| - 1], SortedSet(xs[..|xs| - 1]))
  }

  /** `sorted(set(xs))` is strictly increasing and holds exactly the elements of `xs`. */
  lemma {:induction false} SortedSetSpec(xs: seq<string>)
    ensures StrictlySorted(SortedSet(xs))
    ensures forall y :: y in SortedSet(xs) <==> y in xs
  {
    if xs != [] {
      var init := xs[..|xs| - 1];
      SortedSetSpec(init);
      InsertSorted(xs[|xs| - 1], SortedSet(init));
      assert xs == init + [xs[|xs| - 1]];
    }
  }

  lemma BelowAsymmetric(a: string, b: string)
    ensures Below(a, b) ==> !Below(b, a)
  {
    if Below(a, b) && Below(b, a) {
      BelowTransitive(a, b, a);
      BelowIrreflexive(a);
    }
  }

  /** The head of a strictly increasing sequence is its least element. */
  lemma HeadIsLeast(xs: seq<string>, y: string)
    requires StrictlySorted(xs) && y in xs
    ensures y == xs[0] || Below(xs[0], y)
  {
  }

  /** The tail of a strictly increasing sequence holds every element but the head. */
  lemma TailMembers(xs: seq<string>, y: string)
    requires StrictlySorted(xs) && xs != []
    ensures y in xs[1..] <==> y in xs && y != xs[0]
  {
    if y in xs[1..] {
      var i :| 1 <= i < |xs| && xs[i] == y;
      assert Below(xs[0], xs[i]);
      BelowIrreflexive(y);
    }
    if y in xs && y != xs[0] {
      var i :| 0 <= i < |xs| && xs[i] == y;
      assert xs[1..][i - 1] == y;
    }
  }

  /**
   * A strictly increasing sequence is determined by its elements: whatever
   * `sorted(set(...))` returns is the only such arrangement of its input.
   */
  lemma {:induction false} StrictlySortedUnique(xs: seq<string>, ys: seq<string>)
    requires StrictlySorted(xs) && StrictlySorted(ys)
    requires forall y :: y in xs <==> y in ys
    ensures xs == ys
  {
    assert xs != [] ==> xs[0] in ys;
    assert ys != [] ==> ys[0] in xs;
    if xs != [] && ys != [] {
      var a, b := xs[0], ys[0];
      assert a in ys && b in xs;
      HeadIsLeast(xs, b);
      HeadIsLeast(ys, a);
      BelowAsymmetric(a, b);
      assert a == b;
      forall y ensures y in xs[1..] <==> y in ys[1..] {
        TailMembers(xs, y);
        TailMembers(ys, y);
      }
      StrictlySortedUnique(xs[1..], ys[1..]);
      assert xs == [a] + xs[1..] && ys == [b] + ys[1..];
    }
  }
}
