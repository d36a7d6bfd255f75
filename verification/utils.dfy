/** Removal of dead characters. */
module Utils {
  import opened Characters
  import opened Lists

  /** The characters with positive health, in their original order. */
  function RemoveDeadCharacters(cs: seq<Character>): (r: seq<Character>)
    reads cs
    ensures |r| <= |cs|
    ensures forall c :: c in r ==> c in cs && c.health > 0
    ensures forall c :: c in cs && c.health > 0 ==> c in r
  {
    if cs == [] then []
    else if cs[0].health > 0 then [cs[0]] + RemoveDeadCharacters(cs[1..])
    else RemoveDeadCharacters(cs[1..])
  }

  /** a can be obtained from b by deleting elements: a keeps b's order. */
  predicate IsSubsequence<T(==)>(a: seq<T>, b: seq<T>)
    decreases |b|
  {
    if a == [] then true
    else if b == [] then false
    else if a[0] == b[0] then IsSubsequence(a[1..], b[1..])
    else IsSubsequence(a, b[1..])
  }

  /** The survivors keep the order they had in the input. */
  lemma {:induction false} RemoveDeadKeepsOrder(cs: seq<Character>)
    ensures IsSubsequence(RemoveDeadCharacters(cs), cs)
  {
    if cs != [] {
      RemoveDeadKeepsOrder(cs[1..]);
      var rest := RemoveDeadCharacters(cs[1..]);
      if cs[0].health <= 0 && rest != [] {
        assert RemoveDeadCharacters(cs) == rest;
      }
    }
  }

  /** Removing the dead a second time removes nothing more. */
  lemma {:induction false} RemoveDeadIdempotent(cs: seq<Character>)
    ensures RemoveDeadCharacters(RemoveDeadCharacters(cs)) == RemoveDeadCharacters(cs)
  {
    if cs != [] {
      RemoveDeadIdempotent(cs[1..]);
      var rest := RemoveDeadCharacters(cs[1..]);
      if cs[0].health > 0 {
        assert ([cs[0]] + rest)[1..] == rest;
      }
    }
  }

  /** When nobody is dead the list is returned as it is. */
  lemma {:induction false} RemoveDeadNoneDead(cs: seq<Character>)
    requires forall c :: c in cs ==> c.health > 0
    ensures RemoveDeadCharacters(cs) == cs
  {
    if cs != [] {
      RemoveDeadNoneDead(cs[1..]);
      assert cs == [cs[0]] + cs[1..];
    }
  }

  /** A list of distinct characters stays distinct. */
  lemma {:induction false} RemoveDeadDistinct(cs: seq<Character>)
    requires Distinct(cs)
    ensures Distinct(RemoveDeadCharacters(cs))
  {
    if cs != [] {
      RemoveDeadDistinct(cs[1..]);
      var rest := RemoveDeadCharacters(cs[1..]);
      if cs[0].health > 0 {
        assert cs[0] !in rest;
        var r := [cs[0]] + rest;
        forall i, j | 0 <= i < j < |r| ensures r[i] != r[j] {
          if i > 0 {
            assert r[i] == rest[i - 1] && r[j] == rest[j - 1];
          }
        }
      }
    }
  }

  /** The flags marking as dead every character whose recorded health is at or below zero. */
  function Fallen(health: seq<int>): seq<bool>
  {
    seq(|health|, k requires 0 <= k < |health| => health[k] <= 0)
  }

  /**
   * Removing the dead is keeping, in order, the characters not marked Fallen by the healths they
   * have now. Stated through Kept it survives later changes to health: with the healths recorded
   * at removal time, Lists.KeptExactly says which characters are left.
   */
  lemma {:induction false} RemoveDeadIsKept(cs: seq<Character>, health: seq<int>)
    requires |health| == |cs| && forall k :: 0 <= k < |cs| ==> health[k] == cs[k].health
    ensures RemoveDeadCharacters(cs) == Kept(cs, Fallen(health))
  {
    if cs != [] {
      RemoveDeadIsKept(cs[1..], health[1..]);
      KeptFront(cs, Fallen(health));
      assert Fallen(health)[1..] == Fallen(health[1..]);
    }
  }
}
