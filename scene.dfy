/** The `gameObjects` list as a value, and the functions that say what one tick does to it:
    the filters by type, the collision pairs, the marking of hit objects, the explosions
    that are added, the trace of published messages and the final purge. */
module Scene {
  import opened Objects
  import opened Messages

  /** An element of `gameObjects`. The hero is pushed into the list as the very object the
      `hero` variable names, so the list holds a reference to it (`HeroEntry`) rather than a
      copy; every other object is held by value. */
  datatype Entry = HeroEntry | Item(obj: GameObject)

  predicate IsKind(e: Entry, k: Kind)
  {
    e.Item? && e.obj.kind == k
  }

  /** `e` survives the purge: it is not dead (for the hero entry, the hero is not dead). */
  predicate Alive(e: Entry, heroDead: bool)
  {
    match e
    case HeroEntry => !heroDead
    case Item(o) => !o.dead
  }

  /** Every index of `idx` names an object (not the hero entry) of `g`. */
  predicate Refs(g: seq<Entry>, idx: seq<nat>)
  {
    forall k :: 0 <= k < |idx| ==> idx[k] < |g| && g[idx[k]].Item?
  }

  // ---------------------------------------------------------------- filters by type

  /** The indices are strictly ascending, so none occurs twice. */
  predicate Ascending(s: seq<nat>)
  {
    forall a, b :: 0 <= a < b < |s| ==> s[a] < s[b]
  }

  /** In an ascending list every element before the last is below the last. */
  lemma PrefixBelowLast(s: seq<nat>, p: seq<nat>)
    requires |s| > 0 && p == s[..|s| - 1]
    ensures Ascending(s) ==> Ascending(p) && forall x :: x in p ==> x < s[|s| - 1]
  {
  }

  /** The positions, ascending, of the objects of kind `k` among the first `n` entries:
      `gameObjects.filter(go => go.type === k)`, kept as references into the list. */
  function IndicesOf(g: seq<Entry>, k: Kind, n: nat): (r: seq<nat>)
    requires n <= |g|
    ensures forall j :: 0 <= j < |r| ==> r[j] < n && IsKind(g[r[j]], k)
    ensures forall i {:trigger IsKind(g[i], k)} :: 0 <= i < n && IsKind(g[i], k) ==> i in r
    ensures Ascending(r)
  {
    if n == 0 then []
    else IndicesOf(g, k, n - 1) + (if IsKind(g[n - 1], k) then [n - 1] else [])
  }

  function MonstersOf(g: seq<Entry>): (r: seq<nat>)
    ensures Refs(g, r)
  {
    IndicesOf(g, Monster, |g|)
  }

  function LasersOf(g: seq<Entry>): (r: seq<nat>)
    ensures Refs(g, r)
  {
    IndicesOf(g, Laser, |g|)
  }

  // ---------------------------------------------------------------- laser x monster pairs

  /** Every pair names two objects of `g`, and the second one of each pair is hit. */
  predicate PairRefs(g: seq<Entry>, hits: seq<(nat, nat)>)
  {
    forall k :: 0 <= k < |hits| ==>
      hits[k].0 < |g| && hits[k].1 < |g| && g[hits[k].0].Item? && g[hits[k].1].Item?
  }

  /** The monsters of `ms` that laser `l` hits, in the order of `ms`. */
  function RowHits(g: seq<Entry>, l: nat, ms: seq<nat>): (r: seq<(nat, nat)>)
    requires l < |g| && g[l].Item? && Refs(g, ms)
    ensures PairRefs(g, r)
    ensures forall k :: 0 <= k < |r| ==> r[k].0 == l && r[k].1 in ms && Collide(g[l].obj, g[r[k].1].obj)
  {
    if ms == [] then []
    else
      var m := ms[|ms| - 1];
      RowHits(g, l, ms[..|ms| - 1]) + (if Collide(g[l].obj, g[m].obj) then [(l, m)] else [])
  }

  /** The intersecting (laser, monster) pairs in the order the two nested `forEach` loops meet
      them: lasers outer, monsters inner. Nothing stops one laser from appearing twice. */
  function Hits(g: seq<Entry>, ls: seq<nat>, ms: seq<nat>): (r: seq<(nat, nat)>)
    requires Refs(g, ls) && Refs(g, ms)
    ensures PairRefs(g, r)
    ensures forall k :: 0 <= k < |r| ==> r[k].0 in ls && r[k].1 in ms && Collide(g[r[k].0].obj, g[r[k].1].obj)
  {
    if ls == [] then []
    else Hits(g, ls[..|ls| - 1], ms) + RowHits(g, ls[|ls| - 1], ms)
  }

  /** Pair p comes before pair q in the order of the nested loops: by laser, then by monster. */
  predicate PairBefore(p: (nat, nat), q: (nat, nat))
  {
    p.0 < q.0 || (p.0 == q.0 && p.1 < q.1)
  }

  /** Appending in two steps is appending the two parts at once. */
  lemma AppendAssoc<T>(s: seq<T>, a: seq<T>, b: seq<T>)
    ensures s + a + b == s + (a + b)
  {
  }

  /** Changing an element before an appended tail leaves the tail where it was. */
  lemma UpdateBeforeAppend<T>(g: seq<T>, extra: seq<T>, m: nat, v: T)
    requires m < |g|
    ensures (g + extra)[m := v] == g[m := v] + extra
  {
  }

  /** One more monster for laser l: the pair is added exactly when the boxes intersect. */
  lemma RowHitsSnoc(g: seq<Entry>, l: nat, ms: seq<nat>, b: nat)
    requires l < |g| && g[l].Item? && Refs(g, ms) && b < |ms|
    ensures Refs(g, ms[..b]) && Refs(g, ms[..b + 1])
    ensures RowHits(g, l, ms[..b + 1])
      == RowHits(g, l, ms[..b]) + (if Collide(g[l].obj, g[ms[b]].obj) then [(l, ms[b])] else [])
  {
    assert ms[..b + 1][..b] == ms[..b];
  }

  /** One more laser: its row of pairs is added after the earlier ones. */
  lemma HitsSnoc(g: seq<Entry>, ls: seq<nat>, ms: seq<nat>, a: nat)
    requires Refs(g, ls) && Refs(g, ms) && a < |ls|
    ensures Refs(g, ls[..a]) && Refs(g, ls[..a + 1])
    ensures Hits(g, ls[..a + 1], ms) == Hits(g, ls[..a], ms) + RowHits(g, ls[a], ms)
  {
    assert ls[..a + 1][..a] == ls[..a];
  }

  /** For an ascending monster list, laser l's pairs come with strictly ascending monsters,
      so no monster is paired with l twice. */
  lemma {:induction false} RowHitsAscending(g: seq<Entry>, l: nat, ms: seq<nat>)
    requires l < |g| && g[l].Item? && Refs(g, ms) && Ascending(ms)
    ensures forall a, b :: 0 <= a < b < |RowHits(g, l, ms)| ==> RowHits(g, l, ms)[a].1 < RowHits(g, l, ms)[b].1
  {
    if ms != [] {
      var ms', m := ms[..|ms| - 1], ms[|ms| - 1];
      PrefixBelowLast(ms, ms');
      RowHitsAscending(g, l, ms');
      var front := RowHits(g, l, ms');
      var r := front + (if Collide(g[l].obj, g[m].obj) then [(l, m)] else []);
      assert RowHits(g, l, ms) == r;
      forall a, b | 0 <= a < b < |r|
        ensures r[a].1 < r[b].1
      {
        assert r[a] == front[a];
        if b >= |front| {
          assert r[b] == (l, m);
          assert front[a].1 in ms';
          assert front[a].1 < m;
        } else {
          assert r[b] == front[b];
        }
      }
    }
  }

  /** The pairs of earlier lasers followed by the row of a later laser `last`, in monster
      order, stay in loop order. */
  lemma PairsConcat(front: seq<(nat, nat)>, row: seq<(nat, nat)>, last: nat)
    requires forall a, b :: 0 <= a < b < |front| ==> PairBefore(front[a], front[b])
    requires forall k :: 0 <= k < |front| ==> front[k].0 < last
    requires forall k :: 0 <= k < |row| ==> row[k].0 == last
    requires forall a, b :: 0 <= a < b < |row| ==> row[a].1 < row[b].1
    ensures var r := front + row; forall a, b :: 0 <= a < b < |r| ==> PairBefore(r[a], r[b])
  {
    var r := front + row;
    forall a, b | 0 <= a < b < |r|
      ensures PairBefore(r[a], r[b])
    {
      if b < |front| {
        assert r[a] == front[a] && r[b] == front[b];
      } else if a >= |front| {
        assert r[a] == row[a - |front|] && r[b] == row[b - |front|];
      } else {
        assert r[a] == front[a] && r[b] == row[b - |front|];
      }
    }
  }

  /** For ascending lists the pairs come strictly in the order of the nested loops, lasers
      outer, so no pair is found twice. */
  lemma {:induction false} HitsInLoopOrder(g: seq<Entry>, ls: seq<nat>, ms: seq<nat>)
    requires Refs(g, ls) && Refs(g, ms) && Ascending(ls) && Ascending(ms)
    ensures forall a, b :: 0 <= a < b < |Hits(g, ls, ms)| ==>
      PairBefore(Hits(g, ls, ms)[a], Hits(g, ls, ms)[b]) && Hits(g, ls, ms)[a] != Hits(g, ls, ms)[b]
  {
    if ls != [] {
      var ls' := ls[..|ls| - 1];
      PrefixBelowLast(ls, ls');
      HitsInLoopOrder(g, ls', ms);
      RowHitsAscending(g, ls[|ls| - 1], ms);
      var last := ls[|ls| - 1];
      var front, row := Hits(g, ls', ms), RowHits(g, last, ms);
      assert Hits(g, ls, ms) == front + row;
      forall k | 0 <= k < |front|
        ensures front[k].0 < last
      {
        assert front[k].0 in ls';
      }
      PairsConcat(front, row, last);
    }
  }

  lemma {:induction false} RowHitsComplete(g: seq<Entry>, l: nat, ms: seq<nat>, m: nat)
    requires l < |g| && g[l].Item? && Refs(g, ms)
    requires m in ms && Collide(g[l].obj, g[m].obj)
    ensures (l, m) in RowHits(g, l, ms)
  {
    var ms' := ms[..|ms| - 1];
    if m != ms[|ms| - 1] {
      assert m in ms' by {
        var j :| 0 <= j < |ms| && ms[j] == m;
        assert ms'[j] == m;
      }
      RowHitsComplete(g, l, ms', m);
    }
  }

  /** A (laser, monster) pair is reported exactly when the laser is in `ls`, the monster is in
      `ms` and their boxes intersect: every intersecting pair is handled, none other is. */
  lemma {:induction false} HitsMembership(g: seq<Entry>, ls: seq<nat>, ms: seq<nat>, l: nat, m: nat)
    requires Refs(g, ls) && Refs(g, ms)
    ensures (l, m) in Hits(g, ls, ms) <==>
      l in ls && m in ms && l < |g| && m < |g| && Collide(g[l].obj, g[m].obj)
  {
    if l in ls && m in ms && l < |g| && m < |g| && Collide(g[l].obj, g[m].obj) {
      var ls' := ls[..|ls| - 1];
      if l == ls[|ls| - 1] {
        RowHitsComplete(g, l, ms, m);
      } else {
        assert l in ls' by {
          var j :| 0 <= j < |ls| && ls[j] == l;
          assert ls'[j] == l;
        }
        HitsMembership(g, ls', ms, l, m);
      }
    }
  }

  /** Every index that occurs in some pair. */
  function Touched(hits: seq<(nat, nat)>): set<nat>
  {
    if hits == [] then {}
    else Touched(hits[..|hits| - 1]) + {hits[|hits| - 1].0, hits[|hits| - 1].1}
  }

  lemma {:induction false} TouchedMembership(hits: seq<(nat, nat)>, i: nat)
    ensures i in Touched(hits) <==> exists k :: 0 <= k < |hits| && (hits[k].0 == i || hits[k].1 == i)
  {
    if hits != [] {
      var h' := hits[..|hits| - 1];
      TouchedMembership(h', i);
      if i in Touched(h') {
        var k :| 0 <= k < |h'| && (h'[k].0 == i || h'[k].1 == i);
        assert hits[k] == h'[k];
      }
      if exists k :: 0 <= k < |hits| && (hits[k].0 == i || hits[k].1 == i) {
        var k :| 0 <= k < |hits| && (hits[k].0 == i || hits[k].1 == i);
        if k < |h'| {
          assert h'[k] == hits[k];
        }
      }
    }
  }

  // ---------------------------------------------------------------- effects on the list

  /** The object marked dead; the hero entry is left alone (the hero has its own flag). */
  function Killed(e: Entry): (r: Entry)
    ensures r.Item? == e.Item? && (e.Item? ==> r.obj == e.obj.(dead := true))
    ensures !Alive(r, false) || e.HeroEntry?
  {
    match e
    case HeroEntry => e
    case Item(o) => Item(o.(dead := true))
  }

  /** The entries at the positions in `s` marked dead, the others as they were. */
  function Mark(g: seq<Entry>, s: set<nat>): (r: seq<Entry>)
    ensures |r| == |g|
    ensures forall i {:trigger r[i]} :: 0 <= i < |g| ==> r[i] == if i in s then Killed(g[i]) else g[i]
  {
    seq(|g|, i requires 0 <= i < |g| => if i in s then Killed(g[i]) else g[i])
  }

  function ExplosionOver(o: GameObject): Entry
  {
    Item(NewExplosion(o.x, o.y))
  }

  /** One explosion per pair, over that pair's monster, in the order of the pairs. */
  function LaserExplosions(g: seq<Entry>, hits: seq<(nat, nat)>): (r: seq<Entry>)
    requires PairRefs(g, hits)
    ensures |r| == |hits|
    ensures forall k {:trigger r[k]} :: 0 <= k < |hits| ==> r[k] == ExplosionOver(g[hits[k].1].obj)
  {
    if hits == [] then []
    else LaserExplosions(g, hits[..|hits| - 1]) + [ExplosionOver(g[hits[|hits| - 1].1].obj)]
  }

  /** The list after the laser handlers for `hits`: both objects of each pair dead, and one
      explosion appended per pair. */
  function AfterLaserHits(g: seq<Entry>, hits: seq<(nat, nat)>): seq<Entry>
    requires PairRefs(g, hits)
  {
    Mark(g, Touched(hits)) + LaserExplosions(g, hits)
  }

  /** The monsters of `ms` whose boxes intersect the hero box `h`, in order. */
  function HeroHitters(g: seq<Entry>, ms: seq<nat>, h: GameObject): (r: seq<nat>)
    requires Refs(g, ms)
    ensures Refs(g, r) && |r| <= |ms|
    ensures forall k :: 0 <= k < |r| ==> r[k] in ms && Collide(g[r[k]].obj, h)
  {
    if ms == [] then []
    else
      var m := ms[|ms| - 1];
      HeroHitters(g, ms[..|ms| - 1], h) + (if Collide(g[m].obj, h) then [m] else [])
  }

  /** One more monster: it is added exactly when it touches the hero box. */
  lemma HeroHittersSnoc(g: seq<Entry>, ms: seq<nat>, h: GameObject, b: nat)
    requires Refs(g, ms) && b < |ms|
    ensures Refs(g, ms[..b]) && Refs(g, ms[..b + 1])
    ensures HeroHitters(g, ms[..b + 1], h)
      == HeroHitters(g, ms[..b], h) + (if Collide(g[ms[b]].obj, h) then [ms[b]] else [])
  {
    assert ms[..b + 1][..b] == ms[..b];
  }

  /** For an ascending monster list the hitters are strictly ascending, so no monster
      hits the hero twice in one tick. */
  lemma {:induction false} HeroHittersAscending(g: seq<Entry>, ms: seq<nat>, h: GameObject)
    requires Refs(g, ms) && Ascending(ms)
    ensures Ascending(HeroHitters(g, ms, h))
  {
    if ms != [] {
      PrefixBelowLast(ms, ms[..|ms| - 1]);
      HeroHittersAscending(g, ms[..|ms| - 1], h);
    }
  }

  lemma {:induction false} HeroHittersComplete(g: seq<Entry>, ms: seq<nat>, h: GameObject, m: nat)
    requires Refs(g, ms)
    requires m in ms && Collide(g[m].obj, h)
    ensures m in HeroHitters(g, ms, h)
  {
    var ms' := ms[..|ms| - 1];
    if m != ms[|ms| - 1] {
      assert m in ms' by {
        var j :| 0 <= j < |ms| && ms[j] == m;
        assert ms'[j] == m;
      }
      HeroHittersComplete(g, ms', h, m);
    }
  }

  /** What the hero-hit handlers append for the hitters `hs`, starting from `life0`
      lives: an explosion over each monster, preceded by one over the hero `h` at the hit
      that brings the lives to exactly 0. */
  function HeroExplosions(g: seq<Entry>, hs: seq<nat>, life0: int, h: GameObject): (r: seq<Entry>)
    requires Refs(g, hs)
    ensures forall e :: e in r ==> IsKind(e, Explosion) && Alive(e, true)
  {
    if hs == [] then []
    else
      var n := |hs|;
      HeroExplosions(g, hs[..n - 1], life0, h)
        + (if life0 - n == 0 then [ExplosionOver(h)] else [])
        + [ExplosionOver(g[hs[n - 1]].obj)]
  }

  /** The indices occurring in `hs`. */
  function Elements(hs: seq<nat>): set<nat>
  {
    set i | i in hs
  }

  /** The list after the hero-hit handlers for the hitters `hs`. */
  function AfterHeroHits(g: seq<Entry>, hs: seq<nat>, life0: int, h: GameObject): seq<Entry>
    requires Refs(g, hs)
  {
    Mark(g, Elements(hs)) + HeroExplosions(g, hs, life0, h)
  }

  /** `monsters.forEach(m => m.speed = v)`: every monster object gets speed `v`. */
  function Ramped(g: seq<Entry>, v: int): (r: seq<Entry>)
    ensures |r| == |g|
    ensures forall i {:trigger r[i]} :: 0 <= i < |g| ==> r[i] == if IsKind(g[i], Monster) then Item(g[i].obj.(speed := v)) else g[i]
  {
    seq(|g|, i requires 0 <= i < |g| => if IsKind(g[i], Monster) then Item(g[i].obj.(speed := v)) else g[i])
  }

  /** The speed every monster gets on a tick that starts with `count` monsters:
      the base speed 30 plus one for each of the initial 25 that is gone. */
  function RampSpeed(count: int): int
  {
    30 + (25 - count)
  }

  // ---------------------------------------------------------------- one step of each loop

  /** Marking one more position of a marked list, whatever follows it, is marking that
      position too. */
  lemma MarkOneMore(g: seq<Entry>, s: set<nat>, m: nat, tail: seq<Entry>)
    requires m < |g|
    ensures var a := Mark(g, s) + tail; a[m := Killed(a[m])] == Mark(g, s + {m}) + tail
  {
    var a := Mark(g, s) + tail;
    var c := a[m := Killed(a[m])];
    var r := Mark(g, s + {m}) + tail;
    forall i | 0 <= i < |c|
      ensures c[i] == r[i]
    {
      if i >= |g| {
        assert c[i] == tail[i - |g|];
      }
    }
  }

  /** The laser handler for one more pair: both objects marked dead (the laser first), one
      explosion over the monster appended. */
  lemma AfterLaserHitsSnoc(g: seq<Entry>, hits: seq<(nat, nat)>, l: nat, m: nat)
    requires PairRefs(g, hits) && l < |g| && m < |g| && g[l].Item? && g[m].Item?
    ensures PairRefs(g, hits + [(l, m)])
    ensures var a := AfterLaserHits(g, hits);
      var b := a[l := Killed(a[l])];
      AfterLaserHits(g, hits + [(l, m)]) == b[m := Killed(b[m])] + [ExplosionOver(g[m].obj)]
  {
    var hits' := hits + [(l, m)];
    assert hits'[..|hits'| - 1] == hits;
    var t := Touched(hits);
    assert Touched(hits') == t + {l} + {m};
    var x := LaserExplosions(g, hits);
    MarkOneMore(g, t, l, x);
    MarkOneMore(g, t + {l}, m, x);
    assert LaserExplosions(g, hits') == x + [ExplosionOver(g[m].obj)];
    assert Mark(g, Touched(hits')) + x + [ExplosionOver(g[m].obj)] == Mark(g, Touched(hits')) + (x + [ExplosionOver(g[m].obj)]);
  }

  /** The hero-hit handler for one more hitter `m`, the (|hs|+1)-th: the monster marked dead,
      an explosion over the hero if that hit leaves exactly 0 lives, then one over the monster. */
  lemma AfterHeroHitsSnoc(g: seq<Entry>, hs: seq<nat>, life0: int, h: GameObject, m: nat)
    requires Refs(g, hs) && m < |g| && g[m].Item?
    ensures Refs(g, hs + [m])
    ensures var a := AfterHeroHits(g, hs, life0, h);
      AfterHeroHits(g, hs + [m], life0, h)
        == a[m := Killed(a[m])]
          + (if life0 - (|hs| + 1) == 0 then [ExplosionOver(h)] else [])
          + [ExplosionOver(g[m].obj)]
  {
    var hs' := hs + [m];
    assert hs'[..|hs'| - 1] == hs;
    assert Elements(hs') == Elements(hs) + {m};
    var x := HeroExplosions(g, hs, life0, h);
    var y := if life0 - (|hs| + 1) == 0 then [ExplosionOver(h)] else [];
    MarkOneMore(g, Elements(hs), m, x);
    assert HeroExplosions(g, hs', life0, h) == x + y + [ExplosionOver(g[m].obj)];
    var mk := Mark(g, Elements(hs'));
    assert x + y + [ExplosionOver(g[m].obj)] == x + (y + [ExplosionOver(g[m].obj)]);
    assert mk + x + (y + [ExplosionOver(g[m].obj)]) == mk + (x + (y + [ExplosionOver(g[m].obj)]));
    assert mk + x + y + [ExplosionOver(g[m].obj)] == mk + x + (y + [ExplosionOver(g[m].obj)]);
  }

  /** AfterHeroHitsSnoc in the shape the hero-hit handler leaves the list `cur`, for any
      hero `h'` at the place of `h`. */
  lemma HeroHitStep(g: seq<Entry>, hs: seq<nat>, life0: int, h: GameObject, h': GameObject, m: nat,
                    cur: seq<Entry>, lifeAfter: int)
    requires Refs(g, hs) && m < |g| && g[m].Item?
    requires cur == AfterHeroHits(g, hs, life0, h) && h'.x == h.x && h'.y == h.y
    requires lifeAfter == life0 - |hs| - 1
    ensures Refs(g, hs + [m]) && m < |cur|
    ensures cur[m := Killed(cur[m])]
        + (if lifeAfter == 0 then [ExplosionOver(h')] else [])
        + [ExplosionOver(cur[m].obj)]
      == AfterHeroHits(g, hs + [m], life0, h)
  {
    AfterHeroHitsSnoc(g, hs, life0, h, m);
    assert cur[m].obj.x == g[m].obj.x && cur[m].obj.y == g[m].obj.y;
  }

  /** AfterLaserHitsSnoc in the shape the laser handler leaves the list `cur`. */
  lemma LaserHitStep(g: seq<Entry>, hits: seq<(nat, nat)>, l: nat, m: nat, cur: seq<Entry>)
    requires PairRefs(g, hits) && l < |g| && m < |g| && g[l].Item? && g[m].Item?
    requires cur == AfterLaserHits(g, hits)
    ensures PairRefs(g, hits + [(l, m)]) && l < |cur| && m < |cur|
    ensures var c := cur[l := Killed(cur[l])];
      c[m := Killed(c[m])] + [ExplosionOver(cur[m].obj)] == AfterLaserHits(g, hits + [(l, m)])
  {
    AfterLaserHitsSnoc(g, hits, l, m);
    assert cur[m].obj.x == g[m].obj.x && cur[m].obj.y == g[m].obj.y;
  }

  // ---------------------------------------------------------------- what a collision sees

  /** `g'` agrees with `g` on the first |g| positions in all that the filters by type and
      the collision tests look at: which entries are objects, their kinds and their boxes. */
  predicate SameBoxes(g: seq<Entry>, g': seq<Entry>)
  {
    && |g| <= |g'|
    && forall i :: 0 <= i < |g| ==>
      && (g'[i].Item? <==> g[i].Item?)
      && (g[i].Item? ==> g'[i].obj.kind == g[i].obj.kind
                         && RectFromGameObject(g'[i].obj) == RectFromGameObject(g[i].obj))
  }

  lemma {:induction false} IndicesOfSameBoxes(g: seq<Entry>, g': seq<Entry>, k: Kind, n: nat)
    requires SameBoxes(g, g') && n <= |g|
    ensures IndicesOf(g', k, n) == IndicesOf(g, k, n)
  {
    if n > 0 {
      IndicesOfSameBoxes(g, g', k, n - 1);
    }
  }

  lemma {:induction false} RowHitsSameBoxes(g: seq<Entry>, g': seq<Entry>, l: nat, ms: seq<nat>)
    requires SameBoxes(g, g') && l < |g| && g[l].Item? && Refs(g, ms)
    ensures Refs(g', ms) && RowHits(g', l, ms) == RowHits(g, l, ms)
  {
    if ms != [] {
      RowHitsSameBoxes(g, g', l, ms[..|ms| - 1]);
    }
  }

  lemma {:induction false} HitsSameBoxes(g: seq<Entry>, g': seq<Entry>, ls: seq<nat>, ms: seq<nat>)
    requires SameBoxes(g, g') && Refs(g, ls) && Refs(g, ms)
    ensures Refs(g', ls) && Refs(g', ms) && Hits(g', ls, ms) == Hits(g, ls, ms)
  {
    if ls != [] {
      HitsSameBoxes(g, g', ls[..|ls| - 1], ms);
      RowHitsSameBoxes(g, g', ls[|ls| - 1], ms);
    }
  }

  lemma {:induction false} HeroHittersSameBoxes(g: seq<Entry>, g': seq<Entry>, ms: seq<nat>, h: GameObject)
    requires SameBoxes(g, g') && Refs(g, ms)
    ensures Refs(g', ms) && HeroHitters(g', ms, h) == HeroHitters(g, ms, h)
  {
    if ms != [] {
      HeroHittersSameBoxes(g, g', ms[..|ms| - 1], h);
    }
  }

  lemma RampedSameBoxes(g: seq<Entry>, v: int)
    ensures SameBoxes(g, Ramped(g, v))
  {
  }

  lemma MarkSameBoxes(g: seq<Entry>, s: set<nat>, extra: seq<Entry>)
    ensures SameBoxes(g, Mark(g, s) + extra)
  {
    var g' := Mark(g, s) + extra;
    forall i | 0 <= i < |g|
      ensures g'[i] == if i in s then Killed(g[i]) else g[i]
    {
    }
  }

  /** Steps 4 to 6 of a tick on the list `g`, for the hero box `h` (already moved) and
      `life0` lives: the speed ramp, the laser handlers for every intersecting pair, then
      the hero-hit handlers for every monster touching the hero; the purge comes after.
      Neither the ramp nor the marking moves a box, so the pairs and the hitters are those
      of `g` itself. */
  function Collided(g: seq<Entry>, h: GameObject, life0: int): seq<Entry>
  {
    var ms := MonstersOf(g);
    var g1 := Ramped(g, RampSpeed(|ms|));
    var g2 := AfterLaserHits(g1, Hits(g, LasersOf(g), ms));
    AfterHeroHits(g2, HeroHitters(g, ms, h), life0, h)
  }

  /** The list the three steps of the tick leave, in the shape the steps produce it: the
      ramp gives `g1`, the laser handlers for the pairs of `g1` give `g2`, the hero-hit
      handlers for the hitters of `g2` give `g3`. The pairs and the hitters are those of
      `g0`, and `g3` is `Collided(g0, h, life0)`. */
  lemma CollidedInSteps(g0: seq<Entry>, ms: seq<nat>, g1: seq<Entry>, lasers: seq<nat>,
                        g2: seq<Entry>, h: GameObject, life0: int, g3: seq<Entry>)
    requires ms == MonstersOf(g0) && g1 == Ramped(g0, RampSpeed(|ms|)) && lasers == LasersOf(g1)
    requires Refs(g1, ms) && g2 == AfterLaserHits(g1, Hits(g1, lasers, ms))
    requires Refs(g2, ms) && g3 == AfterHeroHits(g2, HeroHitters(g2, ms, h), life0, h)
    ensures Hits(g1, lasers, ms) == Hits(g0, LasersOf(g0), ms)
    ensures HeroHitters(g2, ms, h) == HeroHitters(g0, ms, h)
    ensures g3 == Collided(g0, h, life0)
  {
    RampedSameBoxes(g0, RampSpeed(|ms|));
    IndicesOfSameBoxes(g0, g1, Laser, |g0|);
    HitsSameBoxes(g0, g1, LasersOf(g0), ms);
    var hits := Hits(g1, lasers, ms);
    MarkSameBoxes(g1, Touched(hits), LaserExplosions(g1, hits));
    HeroHittersSameBoxes(g1, g2, ms, h);
    HeroHittersSameBoxes(g0, g1, ms, h);
  }

  /** Both objects of every handled pair leave the collision steps as dead objects, at the
      positions they had. */
  lemma PairsDie(g: seq<Entry>, h: GameObject, life0: int, l: nat, m: nat)
    requires (l, m) in Hits(g, LasersOf(g), MonstersOf(g))
    ensures var c := Collided(g, h, life0);
      && l < |c| && c[l].Item? && c[l].obj.dead
      && m < |c| && c[m].Item? && c[m].obj.dead
  {
    var ms := MonstersOf(g);
    var hits := Hits(g, LasersOf(g), ms);
    var k :| 0 <= k < |hits| && hits[k] == (l, m);
    TouchedMembership(hits, l);
    TouchedMembership(hits, m);
    var g1 := Ramped(g, RampSpeed(|ms|));
    var hs := HeroHitters(g, ms, h);
    RampedSameBoxes(g, RampSpeed(|ms|));
    PairRefsSameBoxes(g, g1, hits);
    MarkSameBoxes(g1, Touched(hits), LaserExplosions(g1, hits));
    RefsSameBoxes(g, g1, hs);
    RefsSameBoxes(g1, AfterLaserHits(g1, hits), hs);
    DiesThroughHeroHits(g1, hits, hs, life0, h, l);
    DiesThroughHeroHits(g1, hits, hs, life0, h, m);
  }

  lemma PairRefsSameBoxes(g: seq<Entry>, g': seq<Entry>, hits: seq<(nat, nat)>)
    requires SameBoxes(g, g') && PairRefs(g, hits)
    ensures PairRefs(g', hits)
  {
  }

  lemma RefsSameBoxes(g: seq<Entry>, g': seq<Entry>, idx: seq<nat>)
    requires SameBoxes(g, g') && Refs(g, idx)
    ensures Refs(g', idx)
  {
  }

  /** Every hitter leaves the collision steps as a dead object, at the position it had. */
  lemma HittersDie(g: seq<Entry>, h: GameObject, life0: int, m: nat)
    requires m in HeroHitters(g, MonstersOf(g), h)
    ensures var c := Collided(g, h, life0); m < |c| && c[m].Item? && c[m].obj.dead
  {
    var ms := MonstersOf(g);
    var hs := HeroHitters(g, ms, h);
    var g1 := Ramped(g, RampSpeed(|ms|));
    var hits := Hits(g, LasersOf(g), ms);
    RampedSameBoxes(g, RampSpeed(|ms|));
    PairRefsSameBoxes(g, g1, hits);
    var g2 := AfterLaserHits(g1, hits);
    MarkSameBoxes(g1, Touched(hits), LaserExplosions(g1, hits));
    RefsSameBoxes(g, g1, hs);
    RefsSameBoxes(g1, g2, hs);
    var c := Mark(g2, Elements(hs)) + HeroExplosions(g2, hs, life0, h);
    assert c[m] == Killed(g2[m]);
  }

  /** An object the laser handlers marked stays dead through the hero-hit handlers. */
  lemma DiesThroughHeroHits(g1: seq<Entry>, hits: seq<(nat, nat)>, hs: seq<nat>, life0: int,
                            h: GameObject, i: nat)
    requires PairRefs(g1, hits) && i in Touched(hits) && i < |g1| && g1[i].Item?
    requires Refs(AfterLaserHits(g1, hits), hs)
    ensures var c := AfterHeroHits(AfterLaserHits(g1, hits), hs, life0, h);
      i < |c| && c[i].Item? && c[i].obj.dead
  {
    var g2 := AfterLaserHits(g1, hits);
    assert g2[i] == Killed(g1[i]);
    var c := Mark(g2, Elements(hs)) + HeroExplosions(g2, hs, life0, h);
    assert c[i] == if i in Elements(hs) then Killed(g2[i]) else g2[i];
  }

  // ---------------------------------------------------------------- published messages

  function Repeat(m: Message, n: nat): (r: seq<Message>)
    ensures |r| == n && forall k :: 0 <= k < n ==> r[k] == m
  {
    seq(n, _ => m)
  }

  lemma RepeatSnoc(m: Message, n: nat)
    ensures Repeat(m, n + 1) == Repeat(m, n) + [m]
  {
    assert Repeat(m, n + 1)[..n] == Repeat(m, n);
  }

  /** The messages published by `n` hero hits starting from `life0` lives: one
      COLLISION_MONSTER_HERO per hit, and GAME_END_LOSS right after the hit that leaves 0. */
  function HeroTrace(life0: int, n: nat): seq<Message>
  {
    if n == 0 then [] else HeroTrace(life0, n - 1) + HitMessages(life0 - n)
  }

  /** What one hero-hit handler publishes, given the lives it leaves. */
  function HitMessages(lifeAfter: int): seq<Message>
  {
    [CollisionMonsterHero] + (if lifeAfter == 0 then [GameEndLoss] else [])
  }


  /** Hero hits publish one COLLISION_MONSTER_HERO each and GAME_END_LOSS once, right after
      the hit that leaves 0 lives, which happens exactly when 1 <= life0 <= n. Lives below 0
      publish nothing more. */
  lemma {:induction false} HeroTraceClosed(life0: int, n: nat)
    ensures HeroTrace(life0, n)
         == if 1 <= life0 <= n
            then Repeat(CollisionMonsterHero, life0) + [GameEndLoss] + Repeat(CollisionMonsterHero, n - life0)
            else Repeat(CollisionMonsterHero, n)
  {
    if n > 0 {
      HeroTraceClosed(life0, n - 1);
      assert HeroTrace(life0, n) == HeroTrace(life0, n - 1) + HitMessages(life0 - n);
      if 1 <= life0 <= n - 1 {
        var front := Repeat(CollisionMonsterHero, life0) + [GameEndLoss];
        RepeatSnoc(CollisionMonsterHero, n - 1 - life0);
        assert front + Repeat(CollisionMonsterHero, n - 1 - life0) + [CollisionMonsterHero] == front + (Repeat(CollisionMonsterHero, n - 1 - life0) + [CollisionMonsterHero]);
      } else if life0 == n {
        RepeatSnoc(CollisionMonsterHero, n - 1);
        assert Repeat(CollisionMonsterHero, 0) == [];
      } else {
        RepeatSnoc(CollisionMonsterHero, n - 1);
      }
    }
  }

  // ---------------------------------------------------------------- the purge

  /** `gameObjects.filter(go => !go.dead)`. */
  function Purged(g: seq<Entry>, heroDead: bool): (r: seq<Entry>)
    ensures |r| <= |g|
    ensures forall e :: e in r ==> Alive(e, heroDead)
  {
    if g == [] then []
    else (if Alive(g[0], heroDead) then [g[0]] else []) + Purged(g[1..], heroDead)
  }

  /** `idx` lists, ascending, the positions of `g` kept in `p`, and `p` is `g` read at
      those positions; a position is kept exactly when its entry is alive. */
  ghost predicate KeptAt(g: seq<Entry>, heroDead: bool, p: seq<Entry>, idx: seq<nat>)
  {
    && |idx| == |p|
    && (forall k :: 0 <= k < |idx| ==> idx[k] < |g| && p[k] == g[idx[k]])
    && (forall a, b :: 0 <= a < b < |idx| ==> idx[a] < idx[b])
    && (forall i :: 0 <= i < |g| ==> (i in idx <==> Alive(g[i], heroDead)))
  }

  /** The purge keeps the live entries in their relative order and drops exactly the dead
      ones: entry k of the result is entry idx[k] of the input, idx ascending, and a position
      is kept exactly when its entry is alive. */
  lemma {:induction false} PurgedKeepsOrder(g: seq<Entry>, heroDead: bool) returns (idx: seq<nat>)
    ensures |idx| == |Purged(g, heroDead)|
    ensures forall k :: 0 <= k < |idx| ==> idx[k] < |g| && Purged(g, heroDead)[k] == g[idx[k]]
    ensures forall a, b :: 0 <= a < b < |idx| ==> idx[a] < idx[b]
    ensures forall i :: 0 <= i < |g| ==> (i in idx <==> Alive(g[i], heroDead))
  {
    if g == [] {
      idx := [];
    } else {
      var rest := PurgedKeepsOrder(g[1..], heroDead);
      idx := KeptAtCons(g, heroDead, rest);
    }
  }

  lemma KeptAtCons(g: seq<Entry>, heroDead: bool, rest: seq<nat>) returns (idx: seq<nat>)
    requires g != [] && KeptAt(g[1..], heroDead, Purged(g[1..], heroDead), rest)
    ensures KeptAt(g, heroDead, Purged(g, heroDead), idx)
  {
    var p := Purged(g[1..], heroDead);
    if Alive(g[0], heroDead) {
      idx := [0] + Shift(rest);
      assert Purged(g, heroDead) == [g[0]] + p;
      KeptAtAlive(g, heroDead, p, rest, idx);
    } else {
      idx := Shift(rest);
      assert Purged(g, heroDead) == p;
      KeptAtDead(g, heroDead, p, rest, idx);
    }
  }

  lemma KeptAtAlive(g: seq<Entry>, heroDead: bool, p: seq<Entry>, rest: seq<nat>, idx: seq<nat>)
    requires g != [] && KeptAt(g[1..], heroDead, p, rest) && Alive(g[0], heroDead)
    requires idx == [0] + Shift(rest)
    ensures KeptAt(g, heroDead, [g[0]] + p, idx)
  {
    ShiftMembership(rest, |g|);
    var tail := g[1..];
    var p0 := [g[0]] + p;
    forall k | 0 <= k < |idx|
      ensures idx[k] < |g| && p0[k] == g[idx[k]]
    {
      if k > 0 {
        assert idx[k] == rest[k - 1] + 1;
        assert p[k - 1] == tail[rest[k - 1]];
      }
    }
    forall a, b | 0 <= a < b < |idx|
      ensures idx[a] < idx[b]
    {
      if a > 0 {
        assert idx[a] == rest[a - 1] + 1;
      }
    }
    forall i | 0 <= i < |g|
      ensures i in idx <==> Alive(g[i], heroDead)
    {
      if i > 0 {
        assert i in idx <==> i in Shift(rest);
        assert g[i] == tail[i - 1];
      }
    }
  }

  lemma KeptAtDead(g: seq<Entry>, heroDead: bool, p: seq<Entry>, rest: seq<nat>, idx: seq<nat>)
    requires g != [] && KeptAt(g[1..], heroDead, p, rest) && !Alive(g[0], heroDead)
    requires idx == Shift(rest)
    ensures KeptAt(g, heroDead, p, idx)
  {
    ShiftMembership(rest, |g|);
    var tail := g[1..];
    forall k | 0 <= k < |idx|
      ensures idx[k] < |g| && p[k] == g[idx[k]]
    {
      assert p[k] == tail[rest[k]];
    }
    forall i | 0 <= i < |g|
      ensures i in idx <==> Alive(g[i], heroDead)
    {
      if i > 0 {
        assert g[i] == tail[i - 1];
      }
    }
  }

  /** Every index moved one place right. */
  function Shift(idx: seq<nat>): (r: seq<nat>)
    ensures |r| == |idx| && forall k :: 0 <= k < |idx| ==> r[k] == idx[k] + 1
  {
    seq(|idx|, k requires 0 <= k < |idx| => idx[k] + 1)
  }

  lemma ShiftMembership(idx: seq<nat>, n: nat)
    ensures forall i :: 1 <= i < n ==> (i in Shift(idx) <==> (i - 1) in idx)
    ensures 0 !in Shift(idx)
  {
    forall i | 1 <= i < n
      ensures i in Shift(idx) <==> (i - 1) in idx
    {
      if i - 1 in idx {
        var k :| 0 <= k < |idx| && idx[k] == i - 1;
        assert Shift(idx)[k] == i;
      }
    }
  }

  /** The purge keeps every live entry as often as it occurs, and nothing dead. */
  lemma {:induction false} PurgedCounts(g: seq<Entry>, heroDead: bool, e: Entry)
    ensures multiset(Purged(g, heroDead))[e] == if Alive(e, heroDead) then multiset(g)[e] else 0
  {
    if g != [] {
      PurgedCounts(g[1..], heroDead, e);
      var head := if Alive(g[0], heroDead) then [g[0]] else [];
      assert g == [g[0]] + g[1..];
      assert multiset(g) == multiset{g[0]} + multiset(g[1..]);
      assert multiset(Purged(g, heroDead)) == multiset(head) + multiset(Purged(g[1..], heroDead));
    }
  }

  /** Purging twice is purging once. */
  lemma {:induction false} PurgedIdempotent(g: seq<Entry>, heroDead: bool)
    ensures Purged(Purged(g, heroDead), heroDead) == Purged(g, heroDead)
  {
    if g != [] {
      var rest := Purged(g[1..], heroDead);
      PurgedIdempotent(g[1..], heroDead);
      if Alive(g[0], heroDead) {
        var r := [g[0]] + rest;
        assert Purged(g, heroDead) == r;
        assert r[0] == g[0] && r[1..] == rest;
        assert Purged(r, heroDead) == [g[0]] + Purged(rest, heroDead);
      } else {
        assert Purged(g, heroDead) == rest;
      }
    }
  }

  /** The purge keeps every monster's speed. */
  lemma PurgedKeepsSpeeds(g: seq<Entry>, heroDead: bool, v: int)
    requires MonstersAtSpeed(g, v)
    ensures MonstersAtSpeed(Purged(g, heroDead), v)
  {
    var p := Purged(g, heroDead);
    forall i | 0 <= i < |p| && IsKind(p[i], Monster)
      ensures p[i].obj.speed == v
    {
      PurgedFrom(g, heroDead, p[i]);
      var j :| 0 <= j < |g| && g[j] == p[i];
    }
  }

  /** Everything the purge keeps was in the list. */
  lemma PurgedFrom(g: seq<Entry>, heroDead: bool, e: Entry)
    requires e in Purged(g, heroDead)
    ensures e in g
  {
    PurgedCounts(g, heroDead, e);
  }

  /** Every monster among the entries of `g` has speed `v`. */
  predicate MonstersAtSpeed(g: seq<Entry>, v: int)
  {
    forall i :: 0 <= i < |g| && IsKind(g[i], Monster) ==> g[i].obj.speed == v
  }

  lemma RampedSpeeds(g: seq<Entry>, v: int)
    ensures MonstersAtSpeed(Ramped(g, v), v)
  {
  }

  /** Marking entries dead and appending non-monsters keeps every monster's speed. */
  lemma MarkKeepsSpeeds(g: seq<Entry>, s: set<nat>, extra: seq<Entry>, v: int)
    requires MonstersAtSpeed(g, v)
    requires forall k :: 0 <= k < |extra| ==> !IsKind(extra[k], Monster)
    ensures MonstersAtSpeed(Mark(g, s) + extra, v)
  {
    var g' := Mark(g, s) + extra;
    forall i | 0 <= i < |g'| && IsKind(g'[i], Monster)
      ensures g'[i].obj.speed == v
    {
      assert g'[i] == if i in s then Killed(g[i]) else g[i];
    }
  }

  /** After the collisions every monster left in the list carries the ramped speed: the
      ramp set it, and marking and the appended explosions do not touch it. */
  lemma CollidedSpeeds(g: seq<Entry>, h: GameObject, life0: int)
    ensures MonstersAtSpeed(Collided(g, h, life0), RampSpeed(|MonstersOf(g)|))
  {
    var ms := MonstersOf(g);
    var v := RampSpeed(|ms|);
    var g1 := Ramped(g, v);
    RampedSpeeds(g, v);
    var hits := Hits(g, LasersOf(g), ms);
    var lx := LaserExplosions(g1, hits);
    MarkKeepsSpeeds(g1, Touched(hits), lx, v);
    var g2 := AfterLaserHits(g1, hits);
    assert MonstersAtSpeed(g2, v);
    var hs := HeroHitters(g, ms, h);
    var hx := HeroExplosions(g2, hs, life0, h);
    assert forall k :: 0 <= k < |hx| ==> hx[k] in hx;
    MarkKeepsSpeeds(g2, Elements(hs), hx, v);
    assert Collided(g, h, life0) == Mark(g2, Elements(hs)) + hx;
  }

  // ---------------------------------------------------------------- the reset shape

  /** The x of the first monster column, centring five 98-wide columns on the canvas. */
  function GridStartX(canvasWidth: int): int
  {
    (canvasWidth - 5 * 98) / 2
  }

  /** The 25 monsters `createMonsters` pushes, column by column: monster 5 * c + r stands
      in column c (x = start + 98 * c, lane index 5 - c) and row r (y = 50 * r). */
  function MonsterGrid(canvasWidth: int): (r: seq<Entry>)
    ensures |r| == 25
    ensures forall k :: 0 <= k < 25 ==> IsKind(r[k], Monster) && Alive(r[k], true)
  {
    seq(25, k requires 0 <= k < 25 =>
      Item(NewMonster(GridStartX(canvasWidth) + 98 * (k / 5), 50 * (k % 5), 5 - k / 5)))
  }

  /** Monster 5 * c + r of the grid: column c, row r. */
  lemma MonsterGridAt(canvasWidth: int, c: nat, r: nat)
    requires c < 5 && r < 5
    ensures MonsterGrid(canvasWidth)[5 * c + r]
      == Item(NewMonster(GridStartX(canvasWidth) + 98 * c, 50 * r, 5 - c))
  {
    assert (5 * c + r) / 5 == c && (5 * c + r) % 5 == r;
  }

  /** The list after a reset holds exactly 25 monsters (the first 25 entries) and no laser,
      so the first tick ramps every monster to the base speed 30 and scores nothing. */
  lemma ResetCounts(canvasWidth: int)
    ensures var ms := MonstersOf(MonsterGrid(canvasWidth) + [HeroEntry]);
      |ms| == 25 && (forall j :: 0 <= j < 25 ==> ms[j] == j) && RampSpeed(|ms|) == 30
    ensures LasersOf(MonsterGrid(canvasWidth) + [HeroEntry]) == []
  {
    var g := MonsterGrid(canvasWidth) + [HeroEntry];
    assert forall i :: 0 <= i < 26 ==> !IsKind(g[i], Laser);
    IndicesOfPrefix(g, Monster, 25, 26);
    IndicesOfNone(g, Laser, 26);
  }

  /** When exactly the first p entries have kind k, the filter by k lists 0, 1, ..., p - 1. */
  lemma {:induction false} IndicesOfPrefix(g: seq<Entry>, k: Kind, p: nat, n: nat)
    requires p <= n <= |g|
    requires forall i :: 0 <= i < p ==> IsKind(g[i], k)
    requires forall i :: p <= i < |g| ==> !IsKind(g[i], k)
    ensures |IndicesOf(g, k, n)| == p && forall j :: 0 <= j < p ==> IndicesOf(g, k, n)[j] == j
    decreases n
  {
    if n == p {
      IndicesOfAll(g, k, p);
    } else {
      IndicesOfPrefix(g, k, p, n - 1);
    }
  }

  lemma {:induction false} IndicesOfAll(g: seq<Entry>, k: Kind, n: nat)
    requires n <= |g|
    requires forall i :: 0 <= i < n ==> IsKind(g[i], k)
    ensures |IndicesOf(g, k, n)| == n && forall j :: 0 <= j < n ==> IndicesOf(g, k, n)[j] == j
  {
    if n > 0 {
      IndicesOfAll(g, k, n - 1);
    }
  }

  lemma {:induction false} IndicesOfNone(g: seq<Entry>, k: Kind, n: nat)
    requires n <= |g|
    requires forall i :: 0 <= i < n ==> !IsKind(g[i], k)
    ensures IndicesOf(g, k, n) == []
  {
    if n > 0 {
      IndicesOfNone(g, k, n - 1);
    }
  }
}
