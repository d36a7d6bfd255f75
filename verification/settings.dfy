/** Grid configuration of the game: the board is COLS x ROWS cells of CELL_SIZE pixels. */
module Settings {
  const WIDTH: int := 600
  const HEIGHT: int := 600
  const ROWS: int := 30
  const COLS: int := 30
  const CELL_SIZE: int := WIDTH / COLS

  /** A grid cell, written (x, y) as the game writes its tuples. */
  type Cell = (int, int)

  /** The bounds test every move and ray uses: 0 <= x < COLS and 0 <= y < ROWS. */
  predicate InGrid(x: int, y: int)
  {
    0 <= x < COLS && 0 <= y < ROWS
  }

  predicate CellInGrid(c: Cell)
  {
    InGrid(c.0, c.1)
  }

  function Abs(n: int): nat
  {
    if n < 0 then -n else n
  }
}

/** Facts about sequences that several parts of the game rely on. */
module Lists {
  /** No element occurs twice: the lists of game objects hold each object once. */
  predicate Distinct<T(==)>(s: seq<T>)
  {
    forall i, j :: 0 <= i < j < |s| ==> s[i] != s[j]
  }

  /**
   * The position of the first occurrence of x in s, or |s| when there is none:
   * the first-match search of the game's collision loops.
   */
  function FirstIndex<T(==)>(s: seq<T>, x: T): (k: nat)
    ensures k <= |s|
    ensures k < |s| ==> s[k] == x
    ensures forall j :: 0 <= j < k ==> s[j] != x
    ensures k == |s| <==> x !in s
  {
    if s == [] then 0
    else if s[0] == x then 0
    else 1 + FirstIndex(s[1..], x)
  }

  /** s without its first occurrence of x: what a list's remove(x) leaves, by value equality. */
  function RemoveFirst<T(==)>(s: seq<T>, x: T): (r: seq<T>)
    requires x in s
    ensures |r| == |s| - 1
    ensures multiset(r) == multiset(s) - multiset{x}
    ensures exists k :: 0 <= k < |s| && s[k] == x && x !in s[..k] && r == s[..k] + s[k + 1..]
  {
    var k := FirstIndex(s, x);
    assert s == s[..k] + [s[k]] + s[k + 1..];
    assert x !in s[..k];
    s[..k] + s[k + 1..]
  }

  /** s with its first occurrence of x replaced by y. */
  function ReplaceFirst<T(==)>(s: seq<T>, x: T, y: T): (r: seq<T>)
    requires x in s
    ensures |r| == |s|
    ensures multiset(r) == multiset(s) - multiset{x} + multiset{y}
  {
    var k := FirstIndex(s, x);
    assert s == s[..k] + [s[k]] + s[k + 1..];
    assert s[k := y] == s[..k] + [y] + s[k + 1..];
    s[k := y]
  }

  /** s without any occurrence of x: the list comprehension that keeps every element other than x. */
  function Except<T(==)>(s: seq<T>, x: T): (r: seq<T>)
    ensures |r| <= |s|
    ensures x !in r
  {
    if s == [] then [] else (if s[0] == x then [] else [s[0]]) + Except(s[1..], x)
  }

  /** In a list without repeats, leaving out s[i] by value is the same as cutting position i out. */
  lemma ExceptAt<T>(s: seq<T>, i: nat)
    requires Distinct(s) && i < |s|
    ensures Except(s, s[i]) == s[..i] + s[i + 1..]
  {
    OnlyAt(s, i);
    ExceptSplit(s, i);
  }

  /** Leaving out by value an element found only at position i cuts position i out. */
  lemma ExceptSplit<T>(s: seq<T>, i: nat)
    requires i < |s| && s[i] !in s[..i] && s[i] !in s[i + 1..]
    ensures Except(s, s[i]) == s[..i] + s[i + 1..]
  {
    SplitAt(s, i);
    ExceptCut(s, s[..i], s[i], s[i + 1..]);
  }

  /** A list is what lies before position i, the element at i, and what lies after. */
  lemma SplitAt<T>(s: seq<T>, i: nat)
    requires i < |s|
    ensures s == s[..i] + ([s[i]] + s[i + 1..])
  {
    assert s == s[..i] + s[i..];
    assert s[i..] == [s[i]] + s[i + 1..];
  }

  /** In a list without repeats, s[i] occurs neither before nor after position i. */
  lemma OnlyAt<T>(s: seq<T>, i: nat)
    requires Distinct(s) && i < |s|
    ensures s[i] !in s[..i] && s[i] !in s[i + 1..]
  {
    var before, after := s[..i], s[i + 1..];
    forall j | 0 <= j < |before| ensures before[j] != s[i] { assert before[j] == s[j]; }
    forall j | 0 <= j < |after| ensures after[j] != s[i] { assert after[j] == s[i + 1 + j]; }
  }

  /** In s made of before, x and after, leaving out the one occurrence of x joins before and after. */
  lemma ExceptCut<T>(s: seq<T>, before: seq<T>, x: T, after: seq<T>)
    requires s == before + ([x] + after) && x !in before && x !in after
    ensures Except(s, x) == before + after
  {
    assert Except([x] + after, x) == after by {
      ExceptConcat([x], after, x);
      assert Except([x], x) == [] by { assert [x][1..] == []; }
      ExceptAbsent(after, x);
    }
    ExceptConcat(before, [x] + after, x);
    ExceptAbsent(before, x);
  }

  /** Cutting one position out of a list without repeats leaves a list without repeats. */
  lemma DistinctCut<T>(s: seq<T>, i: nat)
    requires Distinct(s) && i < |s|
    ensures Distinct(s[..i] + s[i + 1..])
  {
    var r := s[..i] + s[i + 1..];
    forall a, b | 0 <= a < b < |r| ensures r[a] != r[b] {
      var a', b' := if a < i then a else a + 1, if b < i then b else b + 1;
      assert r[a] == s[a'] && r[b] == s[b'];
    }
  }

  /** Putting a new element in front of a list without repeats keeps it so. */
  lemma DistinctCons<T>(x: T, s: seq<T>)
    requires Distinct(s) && x !in s
    ensures Distinct([x] + s)
  {
    var r := [x] + s;
    forall a, b | 0 <= a < b < |r| ensures r[a] != r[b] {
      assert r[b] == s[b - 1];
      if a > 0 {
        assert r[a] == s[a - 1];
      }
    }
  }

  /** Keeping some elements of a list without repeats gives a list without repeats. */
  lemma {:induction false} KeptDistinct<T>(s: seq<T>, drop: seq<bool>)
    requires |drop| == |s| && Distinct(s)
    ensures Distinct(Kept(s, drop))
  {
    if s != [] {
      var n := |s| - 1;
      var front := s[..n];
      assert Distinct(front) by { forall a, b | 0 <= a < b < |front| ensures front[a] != front[b] { assert front[a] == s[a] && front[b] == s[b]; } }
      KeptDistinct(front, drop[..n]);
      KeptFrom(front, drop[..n]);
      if !drop[n] {
        assert s[n] !in front by { forall a | 0 <= a < |front| ensures front[a] != s[n] { assert front[a] == s[a]; } }
        var k := Kept(front, drop[..n]);
        forall a, b | 0 <= a < b < |k + [s[n]]| ensures (k + [s[n]])[a] != (k + [s[n]])[b] {
          if b == |k| {
            assert (k + [s[n]])[a] == k[a] && k[a] in front;
          } else {
            assert (k + [s[n]])[a] == k[a] && (k + [s[n]])[b] == k[b];
          }
        }
      }
    }
  }

  /** Leaving out x distributes over concatenation. */
  lemma {:induction false} ExceptConcat<T>(a: seq<T>, b: seq<T>, x: T)
    ensures Except(a + b, x) == Except(a, x) + Except(b, x)
  {
    if a != [] {
      ExceptConcat(a[1..], b, x);
      assert (a + b)[1..] == a[1..] + b;
    } else {
      assert a + b == b;
    }
  }

  /** Leaving out an element that does not occur changes nothing. */
  lemma {:induction false} ExceptAbsent<T>(s: seq<T>, x: T)
    requires x !in s
    ensures Except(s, x) == s
  {
    if s != [] {
      ExceptAbsent(s[1..], x);
      assert s == [s[0]] + s[1..];
    }
  }

  /** The elements of s whose flag in `drop` is false, in their order in s. */
  function Kept<T>(s: seq<T>, drop: seq<bool>): (r: seq<T>)
    requires |drop| == |s|
    ensures |r| <= |s|
  {
    if s == [] then [] else Kept(s[..|s| - 1], drop[..|s| - 1]) + (if drop[|s| - 1] then [] else [s[|s| - 1]])
  }

  /**
   * Step i of a walk over a snapshot s of a list that removes each flagged item from the live
   * list (a list's remove(x)): the live list, the kept part of s[..i] followed by s[i..] before
   * the step, is the kept part of s[..i + 1] followed by s[i + 1..] after it.
   */
  method RemoveIfFlagged<T(==)>(s: seq<T>, ghost drop: seq<bool>, i: nat, live: seq<T>, flag: bool)
    returns (r: seq<T>)
    requires |drop| == i < |s| && s[i] !in s[..i]
    requires live == Kept(s[..i], drop) + s[i..]
    ensures r == Kept(s[..i + 1], drop + [flag]) + s[i + 1..]
  {
    if flag {
      DropStep(s, drop, i);
      r := RemoveFirst(live, s[i]);
    } else {
      KeepStep(s, drop, i);
      r := live;
    }
  }

  /**
   * Walking a snapshot s of a list of objects and removing from the live list each one flagged:
   * after i steps, with flags `drop` for s[..i], the live list is the kept prefix followed by the
   * untouched rest. A flagged s[i] is found right after the kept prefix when it is not in s[..i].
   */
  lemma DropStep<T>(s: seq<T>, drop: seq<bool>, i: nat)
    requires |drop| == i < |s| && s[i] !in s[..i]
    ensures s[i] in Kept(s[..i], drop) + s[i..]
    ensures RemoveFirst(Kept(s[..i], drop) + s[i..], s[i]) == Kept(s[..i + 1], drop + [true]) + s[i + 1..]
  {
    var front := Kept(s[..i], drop);
    KeptFrom(s[..i], drop);
    assert front + s[i..] == front + [s[i]] + s[i + 1..] by {
      assert s[i..] == [s[i]] + s[i + 1..];
    }
    RemoveFirstAfter(front, s[i], s[i + 1..]);
    KeptPrefix(s, drop, true, i);
    assert Kept(s[..i + 1], drop + [true]) == front;
  }

  /** An unflagged s[i] stays where it is. */
  lemma KeepStep<T>(s: seq<T>, drop: seq<bool>, i: nat)
    requires |drop| == i < |s|
    ensures Kept(s[..i], drop) + s[i..] == Kept(s[..i + 1], drop + [false]) + s[i + 1..]
  {
    KeptPrefix(s, drop, false, i);
    assert s[i..] == [s[i]] + s[i + 1..];
  }

  /** Extending the prefix by one element keeps that element unless it is flagged. */
  lemma KeptPrefix<T>(s: seq<T>, drop: seq<bool>, flag: bool, i: nat)
    requires |drop| == i < |s|
    ensures Kept(s[..i + 1], drop + [flag]) == Kept(s[..i], drop) + (if flag then [] else [s[i]])
  {
    assert s[..i + 1][..i] == s[..i] && (drop + [flag])[..i] == drop;
  }

  /** Kept read from the front: the first element stays unless flagged, then the rest follows. */
  lemma {:induction false} KeptFront<T>(s: seq<T>, drop: seq<bool>)
    requires |drop| == |s| > 0
    ensures Kept(s, drop) == (if drop[0] then [] else [s[0]]) + Kept(s[1..], drop[1..])
  {
    var n := |s|;
    if n > 1 {
      KeptFront(s[..n - 1], drop[..n - 1]);
      assert s[..n - 1][1..] == s[1..][..n - 2] && drop[..n - 1][1..] == drop[1..][..n - 2];
    }
  }

  /** Removing x from a list whose first occurrence of x follows a takes out that occurrence. */
  lemma RemoveFirstAfter<T>(a: seq<T>, x: T, b: seq<T>)
    requires x !in a
    ensures x in a + [x] + b
    ensures RemoveFirst(a + [x] + b, x) == a + b
  {
    var s := a + [x] + b;
    assert s[|a|] == x;
    var k := FirstIndex(s, x);
    assert k == |a|;
    assert s[..k] == a && s[k + 1..] == b;
  }

  /** Everything kept comes from s. */
  lemma {:induction false} KeptFrom<T>(s: seq<T>, drop: seq<bool>)
    requires |drop| == |s|
    ensures forall x :: x in Kept(s, drop) ==> x in s
  {
    if s != [] {
      KeptFrom(s[..|s| - 1], drop[..|s| - 1]);
    }
  }

  /** An element of a distinct list is kept exactly when it is not flagged. */
  lemma {:induction false} KeptExactly<T>(s: seq<T>, drop: seq<bool>)
    requires Distinct(s) && |drop| == |s|
    ensures forall j :: 0 <= j < |s| ==> (s[j] in Kept(s, drop) <==> !drop[j])
  {
    if s != [] {
      var n := |s| - 1;
      KeptExactly(s[..n], drop[..n]);
      KeptFrom(s[..n], drop[..n]);
      forall j | 0 <= j < n ensures s[j] in Kept(s, drop) <==> !drop[j] {
        assert s[..n][j] == s[j];
        assert s[j] != s[n];
      }
    }
  }
}
