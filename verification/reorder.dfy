/** reorderNodes: the names of a node's children in sort order, the
    name-sequence algorithm that applies the requested moves to them, and
    the update that writes the resulting positions back. */
module Reorder {
  import opened Wrappers
  import opened OrderedMaps
  import opened Schema
  import opened Sessions

  /** One requested move: put `name` just before the sibling `before`, or
      at the end when there is none. */
  datatype Move = Move(name: string, before: Option<string>)

  /** The name the reorder statements match a row by: the namespace column,
      a ':' unless that column is empty, and the local name. */
  function RowName(x: NodeRow): string
  {
    x.namespace + (if x.namespace == "" then "" else ":") + x.localName
  }

  /** A fetched value the fetch loop reads as false. */
  predicate Falsy(name: string)
  {
    name == "" || name == "0"
  }

  /** The fetch loop: the names of `rows` in order, up to the first one that
      reads as false. */
  function NamesUntilFalsy(rows: seq<NodeRow>): (r: seq<string>)
    ensures |r| <= |rows|
    ensures forall i :: 0 <= i < |r| ==> r[i] == RowName(rows[i]) && !Falsy(r[i])
    ensures |r| < |rows| ==> Falsy(RowName(rows[|r|]))
  {
    if |rows| == 0 || Falsy(RowName(rows[0])) then []
    else
      var rest := NamesUntilFalsy(rows[1..]);
      assert forall i :: 1 <= i < |rows| ==> rows[i] == rows[1..][i - 1];
      [RowName(rows[0])] + rest
  }

  /** The original order: the children of `absPath` in every workspace, by
      sort order. */
  function SiblingNames(nodes: seq<NodeRow>, absPath: string): seq<string>
  {
    NamesUntilFalsy(SortByOrder(ChildRows(nodes, absPath, None)))
  }

  predicate Distinct(names: seq<string>)
  {
    forall i, j :: 0 <= i < j < |names| ==> names[i] != names[j]
  }

  /** array_flip of a list: every name maps to the index of its last
      occurrence and sits where it first occurred. */
  function Flip(names: seq<string>): OMap<string, nat>
  {
    FlipFrom([], names, 0)
  }

  /** The flip loop from index `i` on. */
  function FlipFrom(m: OMap<string, nat>, names: seq<string>, i: nat): OMap<string, nat>
    requires i <= |names|
    decreases |names| - i
  {
    if i == |names| then m else FlipFrom(Put(m, names[i], i), names, i + 1)
  }

  /** array_flip of a list without duplicates: every name maps to its
      position. */
  function Positions(keys: seq<string>): (r: OMap<string, nat>)
    ensures |r| == |keys|
    ensures forall i :: 0 <= i < |keys| ==> r[i] == (keys[i], i)
  {
    seq(|keys|, i requires 0 <= i < |keys| => (keys[i], i))
  }

  /** The first position of `b` in `keys`. */
  function IndexOf(keys: seq<string>, b: string): (r: Option<nat>)
    ensures r.None? <==> b !in keys
    ensures r.Some? ==> r.value < |keys| && keys[r.value] == b
    ensures r.Some? ==> forall j :: 0 <= j < r.value ==> keys[j] != b
  {
    if |keys| == 0 then None
    else if keys[0] == b then Some(0)
    else
      var rest := IndexOf(keys[1..], b);
      assert forall j :: 1 <= j < |keys| ==> keys[j] == keys[1..][j - 1];
      assert keys == [keys[0]] + keys[1..];
      if rest.None? then None else Some(rest.value + 1)
  }

  /** The state of the flipped name list: None while it is the null of a
      list that was never assigned, because no sibling was fetched. */
  type Modified = Option<OMap<string, nat>>

  function Initial(original: seq<string>): Modified
  {
    if |original| == 0 then None else Some(Flip(original))
  }

  /** One move. To the end: the name is removed and appended, which on the
      null list makes a list of that one name. Before a target: the name is
      removed and spliced in at the target's position, which is 0 when the
      target is missing; on the null list nothing happens. */
  function Step(m: Modified, mv: Move): (r: Modified)
  {
    match mv.before
    case None =>
      var keys := if m.None? then [] else Keys(Remove(m.value, mv.name));
      Some(Positions(keys + [mv.name]))
    case Some(b) =>
      if m.None? then None
      else
        var keys := Keys(Remove(m.value, mv.name));
        var pos := if IndexOf(keys, b).Some? then IndexOf(keys, b).value else 0;
        Some(Positions(keys[..pos] + [mv.name] + keys[pos..]))
  }

  /** The loop over the requested moves. */
  function ApplyMoves(m: Modified, moves: seq<Move>): Modified
    decreases |moves|
  {
    if |moves| == 0 then m else ApplyMoves(Step(m, moves[0]), moves[1..])
  }

  /** The UPDATE: every child of `absPath`, in any workspace, whose name has
      a position takes that position as sort order; the rest keep theirs. */
  function WriteOrders(nodes: seq<NodeRow>, absPath: string, m: OMap<string, nat>): (r: seq<NodeRow>)
    ensures |r| == |nodes|
    ensures forall i :: 0 <= i < |nodes| ==> r[i] == nodes[i].(sortOrder := r[i].sortOrder)
  {
    seq(|nodes|, i requires 0 <= i < |nodes| =>
      var x := nodes[i];
      var o := Get(m, RowName(x));
      if x.parent == absPath && o.Some? then x.(sortOrder := Some(o.value)) else x)
  }

  /** reorderNodes. With no name to write the UPDATE has no WHEN branch,
      which the database rejects. */
  function ReorderNodes(s: Session, absPath: string, moves: seq<Move>): (r: Result<Session>)
    ensures !s.loggedIn ==> r == Err(RepositoryError)
    ensures r.Err? ==> r.error in {RepositoryError, BackendError}
    ensures r.Ok? ==> r.value == s.(db := s.db.(nodes := r.value.db.nodes))
    ensures r.Ok? ==> |r.value.db.nodes| == |s.db.nodes|
    ensures r.Ok? ==> forall i :: 0 <= i < |s.db.nodes| ==>
      var (x, y) := (s.db.nodes[i], r.value.db.nodes[i]);
      y == x.(sortOrder := y.sortOrder) && (x.parent != absPath ==> y == x)
  {
    if !s.loggedIn then Err(RepositoryError)
    else
      var m := ApplyMoves(Initial(SiblingNames(s.db.nodes, absPath)), moves);
      if m.None? || |m.value| == 0 then Err(BackendError)
      else Ok(s.(db := s.db.(nodes := WriteOrders(s.db.nodes, absPath, m.value))))
  }

  /* ---------------------------------------------------------------------
     Lemmas: the list helpers
     --------------------------------------------------------------------- */

  /** array_flip keeps one entry per name. */
  lemma {:induction false} FlipFromNames(m: OMap<string, nat>, names: seq<string>, i: nat)
    requires i <= |names| && UniqueKeys(m)
    ensures UniqueKeys(FlipFrom(m, names, i))
    ensures forall k :: k in Keys(FlipFrom(m, names, i)) <==> k in Keys(m) || k in names[i..]
    decreases |names| - i
  {
    if i < |names| {
      var x := names[i];
      assert names[i..] == [x] + names[i + 1..];
      PutKeepsUnique(m, x, i);
      var r := Put(m, x, i);
      PutKeysOrder(m, x, i);
      FlipFromNames(r, names, i + 1);
    }
  }

  lemma {:induction false} FlipNames(names: seq<string>)
    ensures UniqueKeys(Flip(names))
    ensures forall k :: k in Keys(Flip(names)) <==> k in names
  {
    FlipFromNames([], names, 0);
    assert names[0..] == names;
  }

  lemma {:induction false} RemoveKeepsUnique(m: OMap<string, nat>, k: string)
    requires UniqueKeys(m)
    ensures UniqueKeys(Remove(m, k))
    decreases |m|
  {
    if |m| > 0 {
      var rest := m[1..];
      assert UniqueKeys(rest) by {
        forall i, j | 0 <= i < j < |rest| ensures rest[i].0 != rest[j].0 {
          assert rest[i] == m[i + 1] && rest[j] == m[j + 1];
        }
      }
      RemoveKeepsUnique(rest, k);
      if m[0].0 != k {
        var r := Remove(m, k);
        forall j | 0 < j < |r| ensures r[0].0 != r[j].0 {
          assert r[j] == Remove(rest, k)[j - 1];
          assert r[j] in rest;
          var a :| 0 <= a < |rest| && rest[a] == r[j];
          assert rest[a] == m[a + 1];
        }
      }
    }
  }

  /** The names left after removing `k`. */
  lemma {:induction false} RemoveKeys(m: OMap<string, nat>, k: string)
    ensures forall x :: x in Keys(Remove(m, k)) <==> x in Keys(m) && x != k
  {
    forall x ensures x in Keys(Remove(m, k)) <==> x in Keys(m) && x != k {
      if x != k {
        assert Get(Remove(m, k), x) == Get(m, x);
      }
    }
  }

  lemma {:induction false} UniqueKeysDistinct(m: OMap<string, nat>)
    requires UniqueKeys(m)
    ensures Distinct(Keys(m))
  {
  }

  lemma {:induction false} PositionsKeys(keys: seq<string>)
    ensures Keys(Positions(keys)) == keys
  {
    assert forall i :: 0 <= i < |keys| ==> Keys(Positions(keys))[i] == keys[i];
  }

  /** Without duplicates array_flip gives the positions. */
  lemma {:induction false} FlipFromDistinct(names: seq<string>, i: nat)
    requires Distinct(names) && i <= |names|
    ensures FlipFrom(Positions(names[..i]), names, i) == Positions(names)
    decreases |names| - i
  {
    if i == |names| {
      assert names[..i] == names;
    } else {
      var x := names[i];
      assert x !in names[..i] by {
        forall j | 0 <= j < i ensures names[..i][j] != x {
          assert names[..i][j] == names[j];
        }
      }
      PositionsKeys(names[..i]);
      PutAbsentAppends(Positions(names[..i]), x, i);
      assert Positions(names[..i]) + [(x, i)] == Positions(names[..i + 1]);
      FlipFromDistinct(names, i + 1);
    }
  }

  lemma {:induction false} FlipDistinct(names: seq<string>)
    requires Distinct(names)
    ensures Flip(names) == Positions(names)
  {
    FlipFromDistinct(names, 0);
    assert Positions(names[..0]) == [];
  }

  lemma {:induction false} PutAbsentAppends(m: OMap<string, nat>, k: string, v: nat)
    requires k !in Keys(m)
    ensures Put(m, k, v) == m + [(k, v)]
  {
    AssignAbsentAppends(m, k, v);
  }

  lemma {:induction false} AssignAbsentAppends(m: OMap<string, nat>, k: string, v: nat)
    requires k !in Keys(m)
    ensures Assign(m, k, v) == m + [(k, v)]
    decreases |m|
  {
    if |m| > 0 {
      assert Keys(m)[0] == m[0].0;
      assert k !in Keys(m[1..]) by {
        forall i | 0 <= i < |m| - 1 ensures Keys(m[1..])[i] != k {
          assert Keys(m[1..])[i] == Keys(m)[i + 1];
        }
      }
      AssignAbsentAppends(m[1..], k, v);
      assert Assign(m, k, v) == [m[0]] + Assign(m[1..], k, v);
      assert m + [(k, v)] == [m[0]] + (m[1..] + [(k, v)]);
    }
  }

  /** With duplicates a name keeps its first place but the index of its last
      occurrence, so without moves the UPDATE writes that index. */
  lemma FlipDuplicate()
    ensures Flip(["a", "b", "a"]) == [("a", 2), ("b", 1)]
  {
    assert ["a", "b", "a"][..2] == ["a", "b"];
    assert ["a", "b"][..1] == ["a"];
    assert ["a"][..0] == [];
    assert Flip(["a"]) == [("a", 0)];
    assert Flip(["a", "b"]) == [("a", 0), ("b", 1)];
  }

  /* ---------------------------------------------------------------------
     Lemmas: the moves
     --------------------------------------------------------------------- */

  /** Every move leaves a list of distinct names at positions 0..k-1. */
  lemma {:induction false} StepDense(m: Modified, mv: Move)
    requires Step(m, mv).Some?
    ensures var r := Step(m, mv).value;
      forall i :: 0 <= i < |r| ==> r[i].1 == i
  {
  }

  /** A move to the end: the name is last and the others keep their order. */
  lemma {:induction false} MoveToEnd(m: OMap<string, nat>, a: string)
    requires UniqueKeys(m)
    ensures var r := Keys(Step(Some(m), Move(a, None)).value);
      && UniqueKeys(Step(Some(m), Move(a, None)).value)
      && r[|r| - 1] == a
      && (forall x :: x in r <==> x in Keys(m) || x == a)
      && r[..|r| - 1] == Keys(Remove(m, a))
  {
    var keys := Keys(Remove(m, a)) + [a];
    PositionsKeys(keys);
    RemoveKeys(m, a);
    RemoveKeepsUnique(m, a);
    assert keys[..|keys| - 1] == Keys(Remove(m, a));
    DistinctSnoc(Keys(Remove(m, a)), a);
  }

  /** Splicing the name in anywhere keeps the names distinct and adds only
      that name. */
  lemma {:induction false} SpliceNames(m: OMap<string, nat>, a: string, pos: nat)
    requires UniqueKeys(m) && pos <= |Keys(Remove(m, a))|
    ensures var rest := Keys(Remove(m, a));
      var r := Positions(rest[..pos] + [a] + rest[pos..]);
      && UniqueKeys(r)
      && Keys(r) == rest[..pos] + [a] + rest[pos..]
      && (forall x :: x in Keys(r) <==> x in Keys(m) || x == a)
  {
    var rest := Keys(Remove(m, a));
    RemoveKeys(m, a);
    RemoveKeepsUnique(m, a);
    UniqueKeysDistinct(Remove(m, a));
    DistinctSplice(rest, pos, a);
    var keys := rest[..pos] + [a] + rest[pos..];
    PositionsKeys(keys);
    PositionsUnique(keys);
    SpliceMembers(rest, pos, a);
  }

  lemma {:induction false} SpliceMembers(rest: seq<string>, pos: nat, a: string)
    requires pos <= |rest|
    ensures forall x :: x in rest[..pos] + [a] + rest[pos..] <==> x in rest || x == a
  {
    assert rest == rest[..pos] + rest[pos..];
  }

  lemma {:induction false} PositionsUnique(keys: seq<string>)
    requires Distinct(keys)
    ensures UniqueKeys(Positions(keys))
  {
    var r := Positions(keys);
    forall i, j | 0 <= i < j < |r| ensures r[i].0 != r[j].0 {
      assert r[i].0 == keys[i] && r[j].0 == keys[j];
    }
  }

  /** A move before a present target: the name lands right before it, the
      others keep their order. */
  lemma {:induction false} MoveBefore(m: OMap<string, nat>, a: string, b: string)
    requires UniqueKeys(m) && b in Keys(m) && b != a
    ensures var r := Keys(Step(Some(m), Move(a, Some(b))).value);
      && UniqueKeys(Step(Some(m), Move(a, Some(b))).value)
      && (exists j :: 0 <= j < |r| - 1 && r[j] == a && r[j + 1] == b)
      && (forall x :: x in r <==> x in Keys(m) || x == a)
  {
    var rest := Keys(Remove(m, a));
    var pos := StepBeforeTarget(m, a, b);
    SpliceNames(m, a, pos);
    SpliceAdjacent(rest, pos, a);
  }

  /** A move before a present target splices the name in at the target's
      position among the others. */
  lemma {:induction false} StepBeforeTarget(m: OMap<string, nat>, a: string, b: string) returns (pos: nat)
    requires b in Keys(m) && b != a
    ensures var rest := Keys(Remove(m, a));
      && pos < |rest| && rest[pos] == b
      && Step(Some(m), Move(a, Some(b))) == Some(Positions(rest[..pos] + [a] + rest[pos..]))
  {
    var rest := Keys(Remove(m, a));
    RemoveKeys(m, a);
    assert b in rest;
    pos := IndexOf(rest, b).value;
  }

  lemma {:induction false} SpliceAdjacent(rest: seq<string>, pos: nat, a: string)
    requires pos < |rest|
    ensures var keys := rest[..pos] + [a] + rest[pos..];
      pos + 1 < |keys| && keys[pos] == a && keys[pos + 1] == rest[pos]
  {
  }

  lemma {:induction false} DistinctSnoc(keys: seq<string>, a: string)
    requires Distinct(keys) && a !in keys
    ensures Distinct(keys + [a])
  {
  }

  lemma {:induction false} DistinctSplice(keys: seq<string>, pos: nat, a: string)
    requires Distinct(keys) && a !in keys && pos <= |keys|
    ensures Distinct(keys[..pos] + [a] + keys[pos..])
  {
    var r := keys[..pos] + [a] + keys[pos..];
    forall i, j | 0 <= i < j < |r| ensures r[i] != r[j] {
      if i < pos && j > pos {
        assert r[i] == keys[i] && r[j] == keys[j - 1];
      } else if i > pos {
        assert r[i] == keys[i - 1] && r[j] == keys[j - 1];
      } else if i == pos {
        assert r[j] == keys[j - 1];
      } else {
        assert r[i] == keys[i];
      }
    }
  }

  /** Each move keeps the names distinct and adds only its own name. */
  lemma {:induction false} StepNames(m: OMap<string, nat>, mv: Move)
    requires UniqueKeys(m)
    ensures Step(Some(m), mv).Some?
    ensures UniqueKeys(Step(Some(m), mv).value)
    ensures forall x :: x in Keys(Step(Some(m), mv).value) <==> x in Keys(m) || x == mv.name
  {
    match mv.before
    case None =>
      MoveToEnd(m, mv.name);
    case Some(b) =>
      var rest := Keys(Remove(m, mv.name));
      var pos := if IndexOf(rest, b).Some? then IndexOf(rest, b).value else 0;
      SpliceNames(m, mv.name, pos);
  }

  /** The names the moves can mention. */
  predicate Named(moves: seq<Move>, x: string)
  {
    exists i :: 0 <= i < |moves| && moves[i].name == x
  }

  /** Over a non-empty list the moves give distinct names: the original ones
      and the moved ones. */
  lemma {:induction false} ApplyMovesNames(m: OMap<string, nat>, moves: seq<Move>)
    requires UniqueKeys(m)
    ensures ApplyMoves(Some(m), moves).Some?
    ensures UniqueKeys(ApplyMoves(Some(m), moves).value)
    ensures forall x :: x in Keys(ApplyMoves(Some(m), moves).value) <==> x in Keys(m) || Named(moves, x)
    decreases |moves|
  {
    if |moves| > 0 {
      StepNames(m, moves[0]);
      var m1 := Step(Some(m), moves[0]).value;
      ApplyMovesNames(m1, moves[1..]);
      forall x ensures Named(moves, x) <==> x == moves[0].name || Named(moves[1..], x) {
        if Named(moves[1..], x) {
          var i :| 0 <= i < |moves[1..]| && moves[1..][i].name == x;
          assert moves[i + 1].name == x;
        }
        if Named(moves, x) && x != moves[0].name {
          var i :| 0 <= i < |moves| && moves[i].name == x;
          assert moves[1..][i - 1].name == x;
        }
      }
    }
  }

  /** Taking one name out of a distinct list. */
  lemma {:induction false} DistinctRemoveAt(b: seq<string>, j: nat)
    requires Distinct(b) && j < |b|
    ensures var b' := b[..j] + b[j + 1..];
      && Distinct(b')
      && (forall y :: y in b' <==> y in b && y != b[j])
      && multiset(b) == multiset{b[j]} + multiset(b')
  {
    var x := b[j];
    var b' := b[..j] + b[j + 1..];
    forall p, q | 0 <= p < q < |b'| ensures b'[p] != b'[q] {
      var p0 := if p < j then p else p + 1;
      var q0 := if q < j then q else q + 1;
      assert b'[p] == b[p0] && b'[q] == b[q0];
    }
    forall y ensures y in b' <==> y in b && y != x {
      if y in b' {
        var p :| 0 <= p < |b'| && b'[p] == y;
        var p0 := if p < j then p else p + 1;
        assert b'[p] == b[p0];
      }
      if y in b && y != x {
        var p :| 0 <= p < |b| && b[p] == y;
        if p < j {
          assert b'[p] == y;
        } else {
          assert b'[p - 1] == y;
        }
      }
    }
    assert b == b[..j] + [x] + b[j + 1..];
  }

  lemma {:induction false} EmptyOrHasFirst(b: seq<string>)
    ensures |b| == 0 || b[0] in b
  {
  }

  /** A distinct list of the same names as a distinct original is a
      rearrangement of it. */
  lemma {:induction false} DistinctSameNames(a: seq<string>, b: seq<string>)
    requires Distinct(a) && Distinct(b)
    requires forall x :: x in a <==> x in b
    ensures multiset(a) == multiset(b)
    decreases |a|
  {
    if |a| > 0 {
      var x := a[0];
      assert x in a;
      assert x in b;
      var j := IndexOf(b, x).value;
      DropBoth(a, b, j);
      DistinctSameNames(a[1..], b[..j] + b[j + 1..]);
      ConsBoth(a, b, j);
    } else {
      EmptyOrHasFirst(b);
    }
  }

  /** Dropping the same name from two distinct lists of the same names. */
  lemma {:induction false} DropBoth(a: seq<string>, b: seq<string>, j: nat)
    requires Distinct(a) && Distinct(b) && |a| > 0 && j < |b| && b[j] == a[0]
    requires forall x :: x in a <==> x in b
    ensures Distinct(a[1..]) && Distinct(b[..j] + b[j + 1..])
    ensures forall y :: y in a[1..] <==> y in b[..j] + b[j + 1..]
  {
    DistinctRemoveAt(a, 0);
    DistinctRemoveAt(b, j);
    assert a[..0] + a[1..] == a[1..];
  }

  lemma {:induction false} ConsBoth(a: seq<string>, b: seq<string>, j: nat)
    requires |a| > 0 && j < |b| && b[j] == a[0]
    requires multiset(a[1..]) == multiset(b[..j] + b[j + 1..])
    ensures multiset(a) == multiset(b)
  {
    assert a == [a[0]] + a[1..];
    assert b == b[..j] + [b[j]] + b[j + 1..];
  }

  /** When every move names an original sibling, the final name list is a
      rearrangement of the original one. */
  lemma {:induction false} ReorderIsPermutation(original: seq<string>, moves: seq<Move>)
    requires Distinct(original) && |original| > 0
    requires forall i :: 0 <= i < |moves| ==> moves[i].name in original
    ensures ApplyMoves(Initial(original), moves).Some?
    ensures multiset(Keys(ApplyMoves(Initial(original), moves).value)) == multiset(original)
  {
    var m := Flip(original);
    FlipNames(original);
    ApplyMovesNames(m, moves);
    var r := Keys(ApplyMoves(Some(m), moves).value);
    UniqueKeysDistinct(ApplyMoves(Some(m), moves).value);
    forall x ensures x in r <==> x in original {
      if Named(moves, x) {
        var i :| 0 <= i < |moves| && moves[i].name == x;
      }
    }
    DistinctSameNames(original, r);
  }

  /** On the null list, moves that all have a target leave it null. */
  lemma {:induction false} TargetsOnNullListDoNothing(moves: seq<Move>)
    requires forall i :: 0 <= i < |moves| ==> moves[i].before.Some?
    ensures ApplyMoves(None, moves) == None
    decreases |moves|
  {
    if |moves| > 0 {
      assert Step(None, moves[0]) == None;
      TargetsOnNullListDoNothing(moves[1..]);
    }
  }

  lemma {:induction false} RemoveAbsent(m: OMap<string, nat>, k: string)
    requires k !in Keys(m)
    ensures Remove(m, k) == m
    decreases |m|
  {
    if |m| > 0 {
      assert Keys(m) == [m[0].0] + Keys(m[1..]);
      RemoveAbsent(m[1..], k);
      assert m == [m[0]] + m[1..];
    }
  }

  lemma {:induction false} RemoveAppended(m: OMap<string, nat>, e: (string, nat))
    requires e.0 !in Keys(m)
    ensures Remove(m + [e], e.0) == m
    decreases |m|
  {
    if |m| == 0 {
      assert ([e])[1..] == [];
    } else {
      assert Keys(m) == [m[0].0] + Keys(m[1..]);
      assert (m + [e])[1..] == m[1..] + [e];
      RemoveAppended(m[1..], e);
      assert m == [m[0]] + m[1..];
    }
  }

  /** First move of the worked example: d goes before b. */
  lemma ExampleFirstMove()
    ensures Step(Some(Positions(["a", "b", "c", "d"])), Move("d", Some("b"))) == Some(Positions(["a", "d", "b", "c"]))
  {
    ExampleRemoveLast();
    ExampleSplice();
  }

  lemma ExampleSplice()
    ensures var keys := ["a", "b", "c"];
      && IndexOf(keys, "b") == Some(1)
      && keys[..1] + ["d"] + keys[1..] == ["a", "d", "b", "c"]
  {
    var keys := ["a", "b", "c"];
    assert keys[1..][0] == "b";
  }

  lemma ExampleRemoveLast()
    ensures Keys(Remove(Positions(["a", "b", "c", "d"]), "d")) == ["a", "b", "c"]
  {
    var m := Positions(["a", "b", "c"]);
    assert Positions(["a", "b", "c", "d"]) == m + [("d", 3)];
    PositionsKeys(["a", "b", "c"]);
    RemoveAppended(m, ("d", 3));
  }

  /** Second move of the worked example: a goes to the end. */
  lemma ExampleSecondMove()
    ensures Step(Some(Positions(["a", "d", "b", "c"])), Move("a", None)) == Some(Positions(["d", "b", "c", "a"]))
  {
    ExampleRemoveFirst();
    assert ["d", "b", "c"] + ["a"] == ["d", "b", "c", "a"];
  }

  lemma ExampleRemoveFirst()
    ensures Keys(Remove(Positions(["a", "d", "b", "c"]), "a")) == ["d", "b", "c"]
  {
    var tail: OMap<string, nat> := [("d", 1), ("b", 2), ("c", 3)];
    var m := Positions(["a", "d", "b", "c"]);
    assert m == [("a", 0)] + tail;
    assert m[1..] == tail;
    assert Keys(tail) == ["d", "b", "c"];
    RemoveAbsent(tail, "a");
  }

  lemma {:induction false} ExampleInitial()
    ensures Initial(["a", "b", "c", "d"]) == Some(Positions(["a", "b", "c", "d"]))
  {
    var orig := ["a", "b", "c", "d"];
    assert Distinct(orig) by {
      forall i, j | 0 <= i < j < 4 ensures orig[i] != orig[j] {
        assert orig[i][0] != orig[j][0];
      }
    }
    FlipDistinct(orig);
  }

  lemma {:induction false} ApplyTwoMoves(m: Modified, x: Move, y: Move)
    ensures ApplyMoves(m, [x, y]) == Step(Step(m, x), y)
  {
    assert [x, y][1..] == [y];
    assert [y][1..] == [];
    assert ApplyMoves(m, [x, y]) == ApplyMoves(Step(m, x), [y]);
    assert ApplyMoves(Step(m, x), [y]) == ApplyMoves(Step(Step(m, x), y), []);
  }

  /** The worked example: [a, b, c, d] with d before b, then a to the end,
      gives [d, b, c, a]. */
  lemma {:induction false} ReorderExample()
    ensures var r := ApplyMoves(Initial(["a", "b", "c", "d"]), [Move("d", Some("b")), Move("a", None)]);
      r.Some? && Keys(r.value) == ["d", "b", "c", "a"]
  {
    ExampleInitial();
    ExampleFirstMove();
    ExampleSecondMove();
    ApplyTwoMoves(Initial(["a", "b", "c", "d"]), Move("d", Some("b")), Move("a", None));
    PositionsKeys(["d", "b", "c", "a"]);
  }

  /* ---------------------------------------------------------------------
     Lemmas: the statements
     --------------------------------------------------------------------- */

  /** The fetch loop stops at a sibling named "0". */
  lemma {:induction false} FetchStopsAtZero(x: NodeRow, y: NodeRow, z: NodeRow)
    requires RowName(x) == "a" && RowName(y) == "0" && RowName(z) == "b"
    ensures NamesUntilFalsy([x, y, z]) == ["a"]
  {
    assert [x, y, z][1..] == [y, z];
  }

  /** The sort order written to a child: its position in the final list,
      whatever its workspace. */
  lemma {:induction false} ReorderWritesPosition(s: Session, absPath: string, moves: seq<Move>, i: nat)
    requires ReorderNodes(s, absPath, moves).Ok?
    requires i < |s.db.nodes| && s.db.nodes[i].parent == absPath
    ensures var m := ApplyMoves(Initial(SiblingNames(s.db.nodes, absPath)), moves).value;
      var y := ReorderNodes(s, absPath, moves).value.db.nodes[i];
      && (RowName(s.db.nodes[i]) in Keys(m) ==> y.sortOrder == Some(Get(m, RowName(s.db.nodes[i])).value))
      && (RowName(s.db.nodes[i]) !in Keys(m) ==> y.sortOrder == s.db.nodes[i].sortOrder)
  {
    var m := ApplyMoves(Initial(SiblingNames(s.db.nodes, absPath)), moves).value;
    assert ReorderNodes(s, absPath, moves).value.db.nodes == WriteOrders(s.db.nodes, absPath, m);
    WriteOrdersAt(s.db.nodes, absPath, m, i);
  }

  lemma {:induction false} WriteOrdersAt(nodes: seq<NodeRow>, absPath: string, m: OMap<string, nat>, i: nat)
    requires i < |nodes| && nodes[i].parent == absPath
    ensures var k := RowName(nodes[i]);
      var y := WriteOrders(nodes, absPath, m)[i];
      && (k in Keys(m) ==> y.sortOrder == Some(Get(m, k).value))
      && (k !in Keys(m) ==> y.sortOrder == nodes[i].sortOrder)
  {
  }

  /** The statements are not limited to the current workspace: a child in
      another workspace is reordered too. */
  lemma {:induction false} ReorderReachesOtherWorkspaces(s: Session, absPath: string, moves: seq<Move>, i: nat)
    requires ReorderNodes(s, absPath, moves).Ok?
    requires i < |s.db.nodes| && s.db.nodes[i].parent == absPath && s.db.nodes[i].workspace != s.workspace
    requires RowName(s.db.nodes[i]) in Keys(ApplyMoves(Initial(SiblingNames(s.db.nodes, absPath)), moves).value)
    ensures ReorderNodes(s, absPath, moves).value.db.nodes[i].sortOrder.Some?
  {
    ReorderWritesPosition(s, absPath, moves, i);
  }

  /** With no sibling fetched and only targeted moves there is nothing to
      write, and the statement fails. */
  lemma {:induction false} ReorderWithoutSiblingsFails(s: Session, absPath: string, moves: seq<Move>)
    requires s.loggedIn && SiblingNames(s.db.nodes, absPath) == []
    requires forall i :: 0 <= i < |moves| ==> moves[i].before.Some?
    ensures ReorderNodes(s, absPath, moves) == Err(BackendError)
  {
    TargetsOnNullListDoNothing(moves);
  }
}
