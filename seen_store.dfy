/**
  The persisted "seen" set: `load_seen` and the sorted id list that
  `save_seen` writes. Python orders strings by comparing code points left to
  right, a proper prefix coming first; `LexLess` is that order.
 */
module SeenStore {

  import opened Wrappers

  /** Python's `a < b` on strings. */
  predicate LexLess(a: string, b: string)
    decreases |a|
  {
    if a == [] then b != []
    else if b == [] then false
    else if a[0] != b[0] then a[0] < b[0]
    else LexLess(a[1..], b[1..])
  }

  lemma {:induction false} LexIrreflexive(a: string)
    ensures !LexLess(a, a)
  {
    if a != [] {
      LexIrreflexive(a[1..]);
    }
  }

  lemma {:induction false} LexTransitive(a: string, b: string, c: string)
    requires LexLess(a, b) && LexLess(b, c)
    ensures LexLess(a, c)
    decreases |a|
  {
    if a != [] && b != [] && c != [] && a[0] == b[0] && b[0] == c[0] {
      LexTransitive(a[1..], b[1..], c[1..]);
    }
  }

  /** Any two distinct strings are ordered one way or the other. */
  lemma {:induction false} LexTotal(a: string, b: string)
    ensures a == b || LexLess(a, b) || LexLess(b, a)
    decreases |a|
  {
    if a != [] && b != [] && a[0] == b[0] {
      LexTotal(a[1..], b[1..]);
      assert a == [a[0]] + a[1..] && b == [b[0]] + b[1..];
    }
  }

  lemma LexAsymmetric(a: string, b: string)
    requires LexLess(a, b)
    ensures !LexLess(b, a)
  {
    if LexLess(b, a) {
      LexTransitive(a, b, a);
      LexIrreflexive(a);
    }
  }

  ghost predicate StrictlyAscending(s: seq<string>) {
    forall i, j :: 0 <= i < j < |s| ==> LexLess(s[i], s[j])
  }

  ghost predicate IsLeast(m: string, ids: set<string>) {
    m in ids && forall x :: x in ids && x != m ==> LexLess(m, x)
  }

  lemma {:induction false} LeastExists(ids: set<string>)
    requires ids != {}
    ensures exists m :: IsLeast(m, ids)
    decreases |ids|
  {
    var y :| y in ids;
    if ids != {y} {
      LeastExists(ids - {y});
      var m :| IsLeast(m, ids - {y});
      LexTotal(m, y);
      if LexLess(m, y) {
        assert IsLeast(m, ids);
      } else {
        forall x | x in ids && x != y ensures LexLess(y, x) {
          if x != m {
            LexTransitive(y, m, x);
          }
        }
        assert IsLeast(y, ids);
      }
    } else {
      assert IsLeast(y, ids);
    }
  }

  /** `sorted(list(ids))`: the persisted id list holds each id exactly once,
      in ascending order. */
  ghost function SortedIds(ids: set<string>): (r: seq<string>)
    ensures |r| == |ids|
    ensures forall x :: x in r <==> x in ids
    ensures StrictlyAscending(r)
    decreases |ids|
  {
    if ids == {} then []
    else
      LeastExists(ids);
      var m :| IsLeast(m, ids);
      [m] + SortedIds(ids - {m})
  }

  /** There is only one ascending list of a given set of ids, so the
      persisted document depends on the set alone, not on insertion order. */
  lemma {:induction false} AscendingUnique(a: seq<string>, b: seq<string>)
    requires StrictlyAscending(a) && StrictlyAscending(b)
    requires forall x :: x in a <==> x in b
    ensures a == b
  {
    if a != [] {
      assert a[0] in b;
    }
    if b != [] {
      assert b[0] in a;
    }
    if a != [] && b != [] {
      if a[0] != b[0] {
        assert b[0] in a;
        assert a[0] in b;
        var i :| 0 <= i < |a| && a[i] == b[0];
        var j :| 0 <= j < |b| && b[j] == a[0];
        LexAsymmetric(a[0], b[0]);
        assert false;
      }
      forall x ensures x in a[1..] <==> x in b[1..] {
        if x in a[1..] {
          var i :| 1 <= i < |a| && a[i] == x;
          LexIrreflexive(a[0]);
          assert x != a[0] && x in b;
          var j :| 0 <= j < |b| && b[j] == x;
          assert j != 0 && b[1..][j - 1] == x;
        }
        if x in b[1..] {
          var j :| 1 <= j < |b| && b[j] == x;
          LexIrreflexive(b[0]);
          assert x != b[0] && x in a;
          var i :| 0 <= i < |a| && a[i] == x;
          assert i != 0 && a[1..][i - 1] == x;
        }
      }
      AscendingUnique(a[1..], b[1..]);
      assert a == [a[0]] + a[1..] && b == [b[0]] + b[1..];
    }
  }

  /** `load_seen`: the stored id list when the document could be read and
      parsed (a document without "ids" counts as an empty list), else the
      empty set. */
  function LoadSeen(stored: Option<seq<string>>): (seen: set<string>)
    ensures stored.None? ==> seen == {}
    ensures stored.Some? ==> forall x :: x in seen <==> x in stored.value
  {
    match stored
    case None => {}
    case Some(ids) => set x | x in ids
  }

  /** Loading what `save_seen` wrote gives back the set that was saved. */
  lemma LoadAfterSave(seen: set<string>)
    ensures LoadSeen(Some(SortedIds(seen))) == seen
  {
  }
}
