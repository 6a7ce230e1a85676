/** Values of the task store: the task record, the selections the store makes
    over its list (the two `filter` callbacks of the getter and the one of
    `removeTask`), the first-match search of `toggleTaskCompletion`, and the
    facts about them that the store's actions rely on. */
module TaskModel {

  /** A task record as the store holds it: `_id`, `title`, `completed`. */
  datatype Task = Task(id: string, title: string, completed: bool)

  /** The callbacks the store hands to `Array.prototype.filter`:
      `task.completed`, `!task.completed` and `task._id !== id`. */
  datatype Criterion = CompletedIs(want: bool) | IdIsNot(id: string)

  predicate Keeps(c: Criterion, t: Task)
  {
    match c
    case CompletedIs(want) => t.completed == want
    case IdIsNot(id) => t.id != id
  }

  /** The order-preserving selection `s.filter(t => Keeps(c, t))`. */
  function Filter(s: seq<Task>, c: Criterion): (r: seq<Task>)
    ensures |r| <= |s|
    ensures forall t :: t in r <==> t in s && Keeps(c, t)
  {
    if s == [] then []
    else if Keeps(c, s[0]) then [s[0]] + Filter(s[1..], c)
    else Filter(s[1..], c)
  }

  /** `r` can be obtained from `s` by deleting elements, keeping the order. */
  ghost predicate IsSubsequence(r: seq<Task>, s: seq<Task>)
    decreases |s|
  {
    if r == [] then true
    else if s == [] then false
    else (r[0] == s[0] && IsSubsequence(r[1..], s[1..])) || IsSubsequence(r, s[1..])
  }

  /** `r` is an order-preserving selection from `s` that holds every occurrence
      of every element meeting `c` and nothing else. */
  ghost predicate IsSelection(r: seq<Task>, s: seq<Task>, c: Criterion)
  {
    IsSubsequence(r, s) &&
    forall t :: multiset(r)[t] == (if Keeps(c, t) then multiset(s)[t] else 0)
  }

  lemma {:induction false} SubsequenceMultiset(r: seq<Task>, s: seq<Task>)
    requires IsSubsequence(r, s)
    ensures multiset(r) <= multiset(s)
    decreases |s|
  {
    if r != [] {
      assert s != [];
      assert s == [s[0]] + s[1..];
      if r[0] == s[0] && IsSubsequence(r[1..], s[1..]) {
        SubsequenceMultiset(r[1..], s[1..]);
        assert r == [r[0]] + r[1..];
      } else {
        SubsequenceMultiset(r, s[1..]);
      }
    }
  }

  /** Filter is an order-preserving selection of exactly the matching tasks. */
  lemma {:induction false} FilterIsSelection(s: seq<Task>, c: Criterion)
    ensures IsSelection(Filter(s, c), s, c)
  {
    if s != [] {
      FilterIsSelection(s[1..], c);
      var rest := Filter(s[1..], c);
      assert s == [s[0]] + s[1..];
      if Keeps(c, s[0]) {
        var r := [s[0]] + rest;
        assert r[1..] == rest;
        assert IsSubsequence(r, s);
      } else {
        assert IsSubsequence(rest, s);
      }
    }
  }

  /** Conversely, there is no other such selection: Filter is the only one. */
  lemma {:induction false} SelectionUnique(r: seq<Task>, s: seq<Task>, c: Criterion)
    requires IsSelection(r, s, c)
    ensures r == Filter(s, c)
    decreases |s|
  {
    if s == [] {
      assert r == [];
    } else {
      var x := s[0];
      assert s == [x] + s[1..];
      if r == [] {
        assert !Keeps(c, x) by {
          assert x in multiset(s);
        }
        SelectionUnique(r, s[1..], c);
      } else if Keeps(c, x) {
        if r[0] == x && IsSubsequence(r[1..], s[1..]) {
          assert r == [x] + r[1..];
          forall t
            ensures multiset(r[1..])[t] == (if Keeps(c, t) then multiset(s[1..])[t] else 0)
          {
            assert multiset(r)[t] == multiset(r[1..])[t] + (if t == x then 1 else 0);
            assert multiset(s)[t] == multiset(s[1..])[t] + (if t == x then 1 else 0);
          }
          SelectionUnique(r[1..], s[1..], c);
        } else {
          SubsequenceMultiset(r, s[1..]);
          assert false;
        }
      } else {
        assert r[0] != x by {
          assert r[0] in multiset(r);
        }
        forall t
          ensures multiset(r)[t] == (if Keeps(c, t) then multiset(s[1..])[t] else 0)
        {
          assert multiset(s)[t] == multiset(s[1..])[t] + (if t == x then 1 else 0);
        }
        SelectionUnique(r, s[1..], c);
      }
    }
  }

  /** Selecting twice by the same criterion selects nothing more: removing
      the same id twice is the same as removing it once. */
  lemma {:induction false} FilterIdempotent(s: seq<Task>, c: Criterion)
    ensures Filter(Filter(s, c), c) == Filter(s, c)
  {
    if s != [] {
      FilterIdempotent(s[1..], c);
      if Keeps(c, s[0]) {
        assert ([s[0]] + Filter(s[1..], c))[1..] == Filter(s[1..], c);
      }
    }
  }

  /** The "completed" and "not_completed" views split the list between them:
      together they hold every task exactly as often as the list does. */
  lemma {:induction false} CompletedPartition(s: seq<Task>)
    ensures multiset(Filter(s, CompletedIs(true))) + multiset(Filter(s, CompletedIs(false))) == multiset(s)
    ensures |Filter(s, CompletedIs(true))| + |Filter(s, CompletedIs(false))| == |s|
  {
    if s != [] {
      CompletedPartition(s[1..]);
      assert s == [s[0]] + s[1..];
    }
  }

  /** `s.findIndex(t => t._id === id)`: the first index whose id is `id`,
      or -1 when there is none. */
  function IndexOf(s: seq<Task>, id: string): (r: int)
    ensures -1 <= r < |s|
    ensures r == -1 <==> forall k :: 0 <= k < |s| ==> s[k].id != id
    ensures 0 <= r ==> s[r].id == id && forall k :: 0 <= k < r ==> s[k].id != id
  {
    if s == [] then -1
    else if s[0].id == id then 0
    else
      var i := IndexOf(s[1..], id);
      if i == -1 then -1 else i + 1
  }

  /** The list after the local update of `toggleTaskCompletion`: the first
      entry whose id is `id` becomes `t`, and nothing else changes. */
  function ReplaceFirst(s: seq<Task>, id: string, t: Task): (r: seq<Task>)
    ensures |r| == |s|
    ensures (forall k :: 0 <= k < |s| ==> s[k].id != id) ==> r == s
    ensures forall k :: 0 <= k < |s| ==>
      r[k] == (if k == IndexOf(s, id) then t else s[k])
  {
    var i := IndexOf(s, id);
    if i == -1 then s else s[i := t]
  }

  /** No two entries share an id. */
  ghost predicate UniqueIds(s: seq<Task>)
  {
    forall i, j :: 0 <= i < j < |s| ==> s[i].id != s[j].id
  }

  /** Appending keeps ids unique exactly when the new id is not yet present:
      the store does not check this, it relies on the server's fresh id. */
  lemma AppendUniqueIds(s: seq<Task>, t: Task)
    ensures UniqueIds(s + [t]) <==> UniqueIds(s) && forall u :: u in s ==> u.id != t.id
  {
    var s' := s + [t];
    if UniqueIds(s') {
      forall u | u in s ensures u.id != t.id {
        var k :| 0 <= k < |s| && s[k] == u;
        assert s'[k] == u && s'[|s|] == t;
      }
      forall i, j | 0 <= i < j < |s| ensures s[i].id != s[j].id {
        assert s'[i] == s[i] && s'[j] == s[j];
      }
    }
    if UniqueIds(s) && forall u :: u in s ==> u.id != t.id {
      forall i, j | 0 <= i < j < |s'| ensures s'[i].id != s'[j].id {
        if j == |s| {
          assert s'[i] == s[i] && s[i] in s;
        } else {
          assert s'[i] == s[i] && s'[j] == s[j];
        }
      }
    }
  }

  /** Any selection keeps ids unique; in particular `removeTask` does. */
  lemma {:induction false} FilterUniqueIds(s: seq<Task>, c: Criterion)
    requires UniqueIds(s)
    ensures UniqueIds(Filter(s, c))
  {
    if s != [] {
      var x, tail := s[0], s[1..];
      assert UniqueIds(tail) by {
        forall i, j | 0 <= i < j < |tail| ensures tail[i].id != tail[j].id {
          assert tail[i] == s[i + 1] && tail[j] == s[j + 1];
        }
      }
      FilterUniqueIds(tail, c);
      if Keeps(c, x) {
        var rest := Filter(tail, c);
        assert forall u :: u in rest ==> u.id != x.id by {
          forall u | u in rest ensures u.id != x.id {
            assert u in tail;
            var k :| 0 <= k < |tail| && tail[k] == u;
            assert s[k + 1] == u;
          }
        }
        var r := [x] + rest;
        forall i, j | 0 <= i < j < |r| ensures r[i].id != r[j].id {
          if i == 0 {
            assert r[j] == rest[j - 1] && rest[j - 1] in rest;
          } else {
            assert r[i] == rest[i - 1] && r[j] == rest[j - 1];
          }
        }
      }
    }
  }

  /** Replacing the first entry with `id` by a record carrying the same id
      keeps ids unique, and then that record is the only entry with `id`. */
  lemma ReplaceFirstUniqueIds(s: seq<Task>, id: string, t: Task)
    requires UniqueIds(s) && t.id == id
    ensures UniqueIds(ReplaceFirst(s, id, t))
    ensures (exists k :: 0 <= k < |s| && s[k].id == id) ==>
      forall u :: u in ReplaceFirst(s, id, t) && u.id == id ==> u == t
  {
  }
}
