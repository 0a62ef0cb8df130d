/**
  The collision scan of the merging scene (`checkMergers`): find the first
  touching pair in the scan order, replace it by one merged entity, and leave
  everything else in place.
 */
module Mergers {
  import opened Entities

  datatype Option<T> = None | Some(value: T)

  /** A pair of entity indices, `i` the outer loop's and `j < i` the inner loop's. */
  datatype Pair = Pair(i: nat, j: nat)

  /** The scan visits pair (a, b) before pair (i, j): the outer index runs from the
      last entity down, and for each outer index the inner one runs from `i - 1` down. */
  predicate VisitedBefore(a: int, b: int, i: int, j: int) {
    a > i || (a == i && b > j)
  }

  /** Some two distinct entities of the list touch. */
  ghost predicate AnyTouching(es: seq<Entity>) {
    exists i, j :: 0 <= j < i < |es| && Touching(es[i], es[j])
  }

  /** (i, j) is the pair the scan merges: it touches, and no pair visited before it does. */
  ghost predicate IsFirstCollision(es: seq<Entity>, i: int, j: int) {
    && 0 <= j < i < |es|
    && Touching(es[i], es[j])
    && forall a, b :: 0 <= b < a < |es| && VisitedBefore(a, b, i, j) ==> !Touching(es[a], es[b])
  }

  /** The inner loop for outer index `i`, over `j = k - 1` down to 0: the first `j`
      whose entity touches entity `i`. */
  function ScanRow(es: seq<Entity>, i: nat, k: nat): (r: Option<nat>)
    requires k <= i < |es|
    ensures r.Some? ==> r.value < k && Touching(es[i], es[r.value])
    ensures r.Some? ==> forall b :: r.value < b < k ==> !Touching(es[i], es[b])
    ensures r.None? ==> forall b :: 0 <= b < k ==> !Touching(es[i], es[b])
    decreases k
  {
    if k == 0 then None
    else if Touching(es[i], es[k - 1]) then Some(k - 1)
    else ScanRow(es, i, k - 1)
  }

  /** The outer loop over `i = k - 1` down to 0: the first touching pair among the
      entities below index `k`. */
  function ScanRows(es: seq<Entity>, k: nat): (r: Option<Pair>)
    requires k <= |es|
    ensures r.Some? ==> r.value.j < r.value.i < k && Touching(es[r.value.i], es[r.value.j])
    ensures r.Some? ==> forall a, b :: 0 <= b < a < k && VisitedBefore(a, b, r.value.i, r.value.j) ==> !Touching(es[a], es[b])
    ensures r.None? ==> forall a, b :: 0 <= b < a < k ==> !Touching(es[a], es[b])
    decreases k
  {
    if k == 0 then None
    else match ScanRow(es, k - 1, k - 1)
      case Some(j) => Some(Pair(k - 1, j))
      case None => ScanRows(es, k - 1)
  }

  /** The pair `checkMergers` merges, if any: it finds one exactly when some pair
      touches, and then it is the first touching pair in scan order. */
  function FirstCollision(es: seq<Entity>): (r: Option<Pair>)
    ensures r.None? <==> !AnyTouching(es)
    ensures r.Some? ==> IsFirstCollision(es, r.value.i, r.value.j)
  {
    ScanRows(es, |es|)
  }

  /** The scan order is total, so at most one pair is the first collision. */
  lemma FirstCollisionUnique(es: seq<Entity>, i: int, j: int, a: int, b: int)
    requires IsFirstCollision(es, i, j) && IsFirstCollision(es, a, b)
    ensures i == a && j == b
  {
  }

  /** The two nested loops of `checkMergers` with their early return, as written:
      `found` with the indices of the first touching pair, or not found when no
      pair touches. */
  method FindFirstCollision(es: seq<Entity>) returns (found: bool, i: int, j: int)
    ensures found ==> IsFirstCollision(es, i, j)
    ensures !found ==> !AnyTouching(es)
    ensures found <==> FirstCollision(es).Some?
    ensures found ==> FirstCollision(es) == Some(Pair(i, j))
  {
    i, j := |es| - 1, -1;
    while i >= 0
      invariant -1 <= i < |es|
      invariant forall a, b :: 0 <= b < a < |es| && a > i ==> !Touching(es[a], es[b])
    {
      j := i - 1;
      while j >= 0
        invariant -1 <= j < i
        invariant forall a, b :: 0 <= b < a < |es| && VisitedBefore(a, b, i, j) ==> !Touching(es[a], es[b])
      {
        if Touching(es[i], es[j]) {
          found := true;
          FirstCollisionUnique(es, i, j, FirstCollision(es).value.i, FirstCollision(es).value.j);
          return;
        }
        j := j - 1;
      }
      i := i - 1;
    }
    found := false;
  }

  /** `splice(k, 1)`: the list without its element at index `k`, the rest in order. */
  function RemoveAt<T>(s: seq<T>, k: nat): (r: seq<T>)
    requires k < |s|
    ensures |r| == |s| - 1
    ensures forall p :: 0 <= p < k ==> r[p] == s[p]
    ensures forall p :: k <= p < |r| ==> r[p] == s[p + 1]
  {
    s[..k] + s[k + 1..]
  }

  /** Splicing out index `i` first and then index `j < i` removes exactly the two
      entities that were at `i` and `j`: removing `i` first leaves `j` in place. */
  lemma SpliceTwice<T>(s: seq<T>, i: nat, j: nat)
    requires j < i < |s|
    ensures RemoveAt(RemoveAt(s, i), j) == s[..j] + s[j + 1..i] + s[i + 1..]
  {
    var r := RemoveAt(RemoveAt(s, i), j);
    var t := s[..j] + s[j + 1..i] + s[i + 1..];
    assert |r| == |t|;
    assert forall p :: 0 <= p < |r| ==> r[p] == t[p];
  }

  /** The entity a merge creates: the next id, the midpoint of the two centres, the
      sum of the sizes, fresh random colour and velocity, and as history the two
      parents' colours followed by their own histories. */
  function Merged(e1: Entity, e2: Entity, id: nat, dice: Dice, radiusOf: nat -> real): (m: Entity)
    ensures WellFormed(e1, radiusOf) && WellFormed(e2, radiusOf) ==> WellFormed(m, radiusOf)
    ensures m.size == e1.size + e2.size
    ensures m.x - e2.x == e1.x - m.x && m.y - e2.y == e1.y - m.y
  {
    NewEntity(id, (e1.x + e2.x) / 2.0, (e1.y + e2.y) / 2.0, e1.size + e2.size, dice, radiusOf)
      .(components := [Component(e1.color), Component(e2.color)] + e1.components + e2.components)
  }

  /** `checkMergers`: when some pair touches, the first touching pair (i, j) in scan
      order is spliced out, index `i` first, and their merge is appended, taking the
      next id; otherwise nothing changes. */
  function CheckMergers(p: Population, dice: Dice, radiusOf: nat -> real): (q: Population)
    ensures !AnyTouching(p.entities) ==> q == p
    ensures AnyTouching(p.entities) ==> |q.entities| == |p.entities| - 1 && q.nextId == p.nextId + 1
  {
    match FirstCollision(p.entities)
    case None => p
    case Some(Pair(i, j)) =>
      var es := p.entities;
      var m := Merged(es[i], es[j], p.nextId, dice, radiusOf);
      Population(RemoveAt(RemoveAt(es, i), j) + [m], p.nextId + 1)
  }

  /** Where an entity that survives a merge of (i, j) ends up: one place further
      forward for each removed index below it. */
  function Shifted(k: int, i: int, j: int): int {
    k - (if k > j then 1 else 0) - (if k > i then 1 else 0)
  }

  /** Survivors of a merge keep their relative order. */
  lemma ShiftedKeepsOrder(n: int, i: int, j: int)
    requires j < i
    ensures forall k1, k2 :: 0 <= k1 < k2 < n && k1 != i && k1 != j && k2 != i && k2 != j
              ==> Shifted(k1, i, j) < Shifted(k2, i, j)
  {
  }

  /** A merge of the first collision (i, j) yields the survivors, in their old
      order, followed by the merged entity, and consumes one id. */
  lemma MergeResult(p: Population, dice: Dice, radiusOf: nat -> real, i: int, j: int)
    requires IsFirstCollision(p.entities, i, j)
    ensures CheckMergers(p, dice, radiusOf)
         == Population(p.entities[..j] + p.entities[j + 1..i] + p.entities[i + 1..]
                         + [Merged(p.entities[i], p.entities[j], p.nextId, dice, radiusOf)],
                       p.nextId + 1)
  {
    var r := FirstCollision(p.entities);
    FirstCollisionUnique(p.entities, i, j, r.value.i, r.value.j);
    SpliceTwice(p.entities, i, j);
  }

  /** The shape of a merge: the length drops by one; the survivors keep their
      relative order, each moved forward past the removed indices; the merged
      entity is last, carries the next id, the sum of the sizes, and the history
      `[e1.color, e2.color] ++ e1.components ++ e2.components` where `e1` is the
      entity at the outer index `i`. */
  lemma MergeShape(p: Population, dice: Dice, radiusOf: nat -> real, i: int, j: int)
    requires IsFirstCollision(p.entities, i, j)
    ensures var q := CheckMergers(p, dice, radiusOf);
            var es := p.entities;
            && |q.entities| == |es| - 1
            && q.nextId == p.nextId + 1
            && (forall k :: 0 <= k < |es| && k != i && k != j ==> q.entities[Shifted(k, i, j)] == es[k])
            && (forall k1, k2 :: 0 <= k1 < k2 < |es| && k1 != i && k1 != j && k2 != i && k2 != j
                  ==> Shifted(k1, i, j) < Shifted(k2, i, j))
            && q.entities[|es| - 2].id == p.nextId
            && q.entities[|es| - 2].size == es[i].size + es[j].size
            && q.entities[|es| - 2].components
               == [Component(es[i].color), Component(es[j].color)] + es[i].components + es[j].components
  {
    var es := p.entities;
    ShiftedKeepsOrder(|es|, i, j);
    MergeResult(p, dice, radiusOf, i, j);
    var m := Merged(es[i], es[j], p.nextId, dice, radiusOf);
    var a, b, c := es[..j], es[j + 1..i], es[i + 1..];
    var qs := a + b + c + [m];
    forall k | 0 <= k < |es| && k != i && k != j
      ensures qs[Shifted(k, i, j)] == es[k]
    {
      if k < j {
        assert qs[k] == a[k];
      } else if k < i {
        assert qs[k - 1] == b[k - 1 - j];
      } else {
        assert qs[k - 2] == c[k - 1 - i];
      }
    }
    assert qs[|es| - 2] == m;
  }

  /** The sum of the sizes of a list of entities. */
  function TotalSize(es: seq<Entity>): nat {
    if |es| == 0 then 0 else es[0].size + TotalSize(es[1..])
  }

  lemma {:induction false} TotalSizeAppend(a: seq<Entity>, b: seq<Entity>)
    ensures TotalSize(a + b) == TotalSize(a) + TotalSize(b)
    decreases |a|
  {
    if |a| == 0 {
      assert a + b == b;
    } else {
      assert (a + b)[1..] == a[1..] + b;
      TotalSizeAppend(a[1..], b);
    }
  }

  lemma TotalSizeOne(e: Entity)
    ensures TotalSize([e]) == e.size
  {
    assert [e][1..] == [];
  }

  /** Cutting a list at index `k` splits its total size around the entity there. */
  lemma TotalSizeAt(es: seq<Entity>, k: int)
    requires 0 <= k < |es|
    ensures TotalSize(es) == TotalSize(es[..k]) + es[k].size + TotalSize(es[k + 1..])
  {
    var a, c := es[..k], es[k + 1..];
    assert es == a + ([es[k]] + c);
    TotalSizeAppend([es[k]], c);
    TotalSizeAppend(a, [es[k]] + c);
    TotalSizeOne(es[k]);
  }

  /** Cutting a list at `j < i` splits its total size into the three stretches
      and the two entities at `j` and `i`. */
  lemma TotalSizeAroundPair(es: seq<Entity>, i: int, j: int)
    requires 0 <= j < i < |es|
    ensures TotalSize(es)
         == TotalSize(es[..j]) + es[j].size + TotalSize(es[j + 1..i]) + es[i].size + TotalSize(es[i + 1..])
  {
    var front := es[..i];
    TotalSizeAt(es, i);
    TotalSizeAt(front, j);
    assert front[..j] == es[..j];
    assert front[j + 1..] == es[j + 1..i];
  }

  /** A merge conserves the total size: the two sizes removed reappear in the merged entity. */
  lemma MergeConservesSize(p: Population, dice: Dice, radiusOf: nat -> real)
    ensures TotalSize(CheckMergers(p, dice, radiusOf).entities) == TotalSize(p.entities)
  {
    var es := p.entities;
    if AnyTouching(es) {
      var r := FirstCollision(es);
      var i, j := r.value.i, r.value.j;
      MergeResult(p, dice, radiusOf, i, j);
      var m := Merged(es[i], es[j], p.nextId, dice, radiusOf);
      var a, b, c := es[..j], es[j + 1..i], es[i + 1..];
      assert a + b + c + [m] == a + (b + (c + [m]));
      TotalSizeAppend(c, [m]);
      TotalSizeAppend(b, c + [m]);
      TotalSizeAppend(a, b + (c + [m]));
      TotalSizeOne(m);
      TotalSizeAroundPair(es, i, j);
    }
  }

  /** The population invariant: every entity well formed, every id below the
      counter, and no id used twice. */
  predicate Consistent(p: Population, radiusOf: nat -> real) {
    && (forall k :: 0 <= k < |p.entities| ==> WellFormed(p.entities[k], radiusOf))
    && (forall k :: 0 <= k < |p.entities| ==> p.entities[k].id < p.nextId)
    && (forall a, b :: 0 <= a < b < |p.entities| ==> p.entities[a].id != p.entities[b].id)
  }

  /** Where the survivor at position `s` of a merged list came from. */
  function Origin(s: int, i: int, j: int): int {
    if s < j then s else if s < i - 1 then s + 1 else s + 2
  }

  /** A merge keeps the population consistent: the merged entity is well formed and
      its id is fresh, above every id present, and the survivors keep theirs. */
  lemma MergeKeepsConsistent(p: Population, dice: Dice, radiusOf: nat -> real)
    requires Consistent(p, radiusOf)
    ensures Consistent(CheckMergers(p, dice, radiusOf), radiusOf)
    ensures forall e :: e in p.entities ==> e.id < CheckMergers(p, dice, radiusOf).nextId
    ensures var q := CheckMergers(p, dice, radiusOf);
            AnyTouching(p.entities) ==> forall e :: e in p.entities ==> e.id < q.entities[|q.entities| - 1].id
  {
    var es := p.entities;
    if AnyTouching(es) {
      var r := FirstCollision(es);
      var i, j := r.value.i, r.value.j;
      MergeResult(p, dice, radiusOf, i, j);
      var n := |es|;
      var m := Merged(es[i], es[j], p.nextId, dice, radiusOf);
      var qs := es[..j] + es[j + 1..i] + es[i + 1..] + [m];
      assert |qs| == n - 1;
      // one case per stretch of survivors: before j, between j and i, after i
      forall s | 0 <= s < n - 2
        ensures qs[s] == es[Origin(s, i, j)]
      {
        if s < j {
          assert qs[s] == es[s];
        } else if s < i - 1 {
          assert qs[s] == es[s + 1];
        } else {
          assert qs[s] == es[s + 2];
        }
      }
      assert qs[n - 2] == m;
      forall a, b | 0 <= a < b < |qs|
        ensures qs[a].id != qs[b].id
      {
        if b == n - 2 {
          assert qs[a].id < p.nextId;
        } else {
          assert Origin(a, i, j) < Origin(b, i, j);
        }
      }
      assert Consistent(Population(qs, p.nextId + 1), radiusOf);
    }
  }
}
