/** One Sudoku group (a row, a column or a 3x3 box read as a sequence of nine
    cells) and the duplicate test that `consistent` applies to each group. */
module Groups {

  /** The value of a cell that holds no digit. */
  const Empty: int := 0

  /** The values of `g` that are not Empty, in their original order. */
  function NonEmpty(g: seq<int>): (r: seq<int>)
    ensures |r| <= |g|
    ensures forall x :: x in r <==> x in g && x != Empty
  {
    if g == [] then []
    else (if g[0] != Empty then [g[0]] else []) + NonEmpty(g[1..])
  }

  /** The set of the elements of `s`. */
  function SetOf(s: seq<int>): (r: set<int>)
    ensures forall x :: x in r <==> x in s
  {
    if s == [] then {} else {s[0]} + SetOf(s[1..])
  }

  /** No value occurs twice in `s`. */
  ghost predicate Distinct(s: seq<int>) {
    forall i, j :: 0 <= i < j < |s| ==> s[i] != s[j]
  }

  /** No two different positions of `g` hold the same non-empty value. */
  ghost predicate NoRepeats(g: seq<int>) {
    forall i, j :: 0 <= i < |g| && 0 <= j < |g| && i != j && g[i] != Empty ==> g[i] != g[j]
  }

  /** A group is valid when its non-empty values are as many as the distinct
      non-empty values, that is, when filtering out Empty and removing
      duplicates loses nothing. */
  function IsValidGroup(g: seq<int>): bool {
    var nums := NonEmpty(g);
    |nums| == |SetOf(nums)|
  }

  lemma DistinctCons(a: int, s: seq<int>)
    ensures Distinct([a] + s) <==> a !in s && Distinct(s)
  {
    var t := [a] + s;
    if a !in s && Distinct(s) {
      forall i, j | 0 <= i < j < |t| ensures t[i] != t[j] {
        assert t[j] == s[j - 1];
        if i > 0 {
          assert t[i] == s[i - 1];
        }
      }
    }
    if Distinct(t) {
      forall i, j | 0 <= i < j < |s| ensures s[i] != s[j] {
        assert s[i] == t[i + 1] && s[j] == t[j + 1];
      }
    }
    if a in s {
      var k :| 0 <= k < |s| && s[k] == a;
      assert t[0] == t[k + 1];
    }
  }

  /** A sequence has as many elements as its set of elements exactly when it
      has no duplicates; this is what `len(nums) == len(set(nums))` tests. */
  lemma {:induction false} SetOfSize(s: seq<int>)
    ensures |SetOf(s)| <= |s|
    ensures |SetOf(s)| == |s| <==> Distinct(s)
  {
    if s != [] {
      var t := s[1..];
      assert s == [s[0]] + t;
      SetOfSize(t);
      DistinctCons(s[0], t);
      var rest := SetOf(t);
      assert SetOf(s) == {s[0]} + rest;
      if s[0] in rest {
        assert {s[0]} + rest == rest;
      } else {
        assert |{s[0]} + rest| == |rest| + 1;
      }
    }
  }

  /** Filtering out Empty leaves no duplicates exactly when the group repeats
      no non-empty value. */
  lemma {:induction false} NonEmptyDistinct(g: seq<int>)
    ensures Distinct(NonEmpty(g)) <==> NoRepeats(g)
  {
    if g != [] {
      var a, t := g[0], g[1..];
      assert g == [a] + t;
      NonEmptyDistinct(t);
      if NoRepeats(g) {
        forall i, j | 0 <= i < |t| && 0 <= j < |t| && i != j && t[i] != Empty ensures t[i] != t[j] {
          assert t[i] == g[i + 1] && t[j] == g[j + 1];
        }
      }
      if a == Empty {
        assert NonEmpty(g) == NonEmpty(t);
        if NoRepeats(t) {
          forall i, j | 0 <= i < |g| && 0 <= j < |g| && i != j && g[i] != Empty ensures g[i] != g[j] {
            assert g[i] == t[i - 1];
            if j > 0 {
              assert g[j] == t[j - 1];
            }
          }
        }
      } else {
        assert NonEmpty(g) == [a] + NonEmpty(t);
        DistinctCons(a, NonEmpty(t));
        if a !in t && NoRepeats(t) {
          forall i, j | 0 <= i < |g| && 0 <= j < |g| && i != j && g[i] != Empty ensures g[i] != g[j] {
            if i == 0 {
              assert g[j] == t[j - 1];
            } else if j == 0 {
              assert g[i] == t[i - 1];
            } else {
              assert g[i] == t[i - 1] && g[j] == t[j - 1];
            }
          }
        }
      }
    }
  }

  /** The meaning of is_valid_group: no non-empty value occurs twice. */
  lemma IsValidGroupMeaning(g: seq<int>)
    ensures IsValidGroup(g) <==> NoRepeats(g)
  {
    SetOfSize(NonEmpty(g));
    NonEmptyDistinct(g);
  }
}
