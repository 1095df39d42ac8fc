/**
 * `find_closest` (main.py:90-106): rank the keys of the dict by their
 * distance to the user's coordinates with a stable sort and keep the first
 * ten, each with its original list of titles.
 *
 * The geodesic distance is the parameter `dist`, any function to `real`;
 * only the order of its values matters to the result.
 */
module Ranker {
  import opened LocationGroups

  /** How many locations `find_closest` keeps (main.py:104). */
  const Limit := 10

  /** One `(distance, coords)` tuple of `list_of_locations`. */
  datatype Ranked = Ranked(distance: real, coords: Coord)

  /** Non-decreasing by distance. */
  ghost predicate SortedByDistance(s: seq<Ranked>) {
    forall i, j :: 0 <= i < j < |s| ==> s[i].distance <= s[j].distance
  }

  function Min(a: int, b: int): int {
    if a <= b then a else b
  }

  /** `r` is the first `i` elements of `s` sorted stably by distance, `from`
      giving each element's input position. */
  ghost predicate StablySorted(s: seq<Ranked>, i: nat, r: seq<Ranked>, from: seq<nat>) {
    && i <= |s| && |r| == i && |from| == i
    && SortedByDistance(r)
    && (forall k :: 0 <= k < i ==> from[k] < i && r[k] == s[from[k]])
    && (forall k, l :: 0 <= k < l < i ==> from[k] != from[l])
    && (forall k, l :: 0 <= k < l < i && r[k].distance == r[l].distance ==> from[k] < from[l])
  }

  /** `list.sort(key=lambda x: x[0])`: a stable sort by distance. `from[k]` is
      the input position of the `k`-th output element: it is a permutation,
      and elements at equal distance keep their input order. */
  method SortByDistance(s: seq<Ranked>) returns (r: seq<Ranked>, ghost from: seq<nat>)
    ensures |r| == |s| && |from| == |s|
    ensures multiset(r) == multiset(s)
    ensures StablySorted(s, |s|, r, from)
  {
    r, from := [], [];
    var i := 0;
    while i < |s|
      invariant 0 <= i <= |s|
      invariant multiset(r) == multiset(s[..i])
      invariant StablySorted(s, i, r, from)
    {
      var x := s[i];
      var pos := InsertionPoint(r, x);
      InsertStep(s, i, r, from, pos);
      r := Insert(r, pos, x);
      from := Insert(from, pos, i);
      i := i + 1;
    }
    assert s[..i] == s;
  }

  /** Where a stable insertion puts `x` in the sorted `r`: after every
      element at most as far as `x`, before every element farther away. */
  method InsertionPoint(r: seq<Ranked>, x: Ranked) returns (pos: nat)
    requires SortedByDistance(r)
    ensures pos <= |r|
    ensures forall k :: 0 <= k < pos ==> r[k].distance <= x.distance
    ensures forall k :: pos <= k < |r| ==> r[k].distance > x.distance
  {
    pos := |r|;
    while pos > 0 && r[pos - 1].distance > x.distance
      invariant 0 <= pos <= |r|
      invariant forall k :: pos <= k < |r| ==> r[k].distance > x.distance
    {
      pos := pos - 1;
    }
  }

  /** Inserting the next input element after every element at most as far
      keeps the prefix stably sorted. */
  lemma InsertStable(s: seq<Ranked>, i: nat, r: seq<Ranked>, from: seq<nat>, pos: nat,
                     r': seq<Ranked>, from': seq<nat>)
    requires i < |s| && StablySorted(s, i, r, from) && pos <= i
    requires forall k :: 0 <= k < pos ==> r[k].distance <= s[i].distance
    requires forall k :: pos <= k < i ==> r[k].distance > s[i].distance
    requires |r'| == i + 1 && |from'| == i + 1
    requires InsertedAt(r, pos, s[i], r') && InsertedAt(from, pos, i, from')
    ensures StablySorted(s, i + 1, r', from')
  {
    var x := s[i];
    forall k, l | 0 <= k < l <= i
      ensures r'[k].distance <= r'[l].distance
      ensures from'[k] != from'[l]
      ensures r'[k].distance == r'[l].distance ==> from'[k] < from'[l]
    {
      if l < pos {
        assert r'[k] == r[k] && r'[l] == r[l] && from'[k] == from[k] && from'[l] == from[l];
      } else if l == pos {
        assert r'[k] == r[k] && r'[l] == x && from'[k] == from[k] && from'[l] == i;
      } else if k < pos {
        assert r'[k] == r[k] && r'[l] == r[l - 1] && from'[k] == from[k] && from'[l] == from[l - 1];
      } else if k == pos {
        assert r'[k] == x && r'[l] == r[l - 1] && from'[k] == i && from'[l] == from[l - 1];
      } else {
        assert r'[k] == r[k - 1] && r'[l] == r[l - 1] && from'[k] == from[k - 1] && from'[l] == from[l - 1];
      }
    }
    forall k | 0 <= k <= i ensures from'[k] < i + 1 && r'[k] == s[from'[k]] {
      if k < pos {
        assert from'[k] == from[k] && r'[k] == r[k];
      } else if k == pos {
        assert from'[k] == i && r'[k] == x;
      } else {
        assert from'[k] == from[k - 1] && r'[k] == r[k - 1];
      }
    }
  }

  /** One step of the insertion sort keeps the loop invariant. */
  lemma InsertStep(s: seq<Ranked>, i: nat, r: seq<Ranked>, from: seq<nat>, pos: nat)
    requires i < |s| && StablySorted(s, i, r, from) && multiset(r) == multiset(s[..i]) && pos <= i
    requires forall k :: 0 <= k < pos ==> r[k].distance <= s[i].distance
    requires forall k :: pos <= k < i ==> r[k].distance > s[i].distance
    ensures StablySorted(s, i + 1, Insert(r, pos, s[i]), Insert(from, pos, i))
    ensures multiset(Insert(r, pos, s[i])) == multiset(s[..i + 1])
  {
    InsertStable(s, i, r, from, pos, Insert(r, pos, s[i]), Insert(from, pos, i));
    assert s[..i + 1] == s[..i] + [s[i]];
  }

  /** `b` is `a` with `x` inserted at index `pos`, stated pointwise. */
  ghost predicate InsertedAt<T>(a: seq<T>, pos: nat, x: T, b: seq<T>) {
    && pos <= |a| && |b| == |a| + 1
    && (forall k :: 0 <= k < pos ==> b[k] == a[k])
    && b[pos] == x
    && (forall k :: pos < k < |b| ==> b[k] == a[k - 1])
  }

  /** `a` with `x` inserted at index `pos` (`list.insert`). */
  function Insert<T>(a: seq<T>, pos: nat, x: T): (b: seq<T>)
    requires pos <= |a|
    ensures InsertedAt(a, pos, x, b)
    ensures multiset(b) == multiset(a) + multiset{x}
  {
    assert a == a[..pos] + a[pos..];
    a[..pos] + [x] + a[pos..]
  }

  // ---------------------------------------------------------------------------
  // find_closest
  // ---------------------------------------------------------------------------

  /** Position of `c` in `keys`, or `|keys|` when it is absent. */
  function IndexOf(keys: seq<Coord>, c: Coord): (p: nat)
    ensures p <= |keys| && (p < |keys| <==> c in keys)
    ensures p < |keys| ==> keys[p] == c
    ensures forall q :: 0 <= q < p ==> keys[q] != c
  {
    if keys == [] then 0 else if keys[0] == c then 0 else 1 + IndexOf(keys[1..], c)
  }

  /** `a` precedes `b` after `find_closest` sorts the keys of a dict with key
      order `keys`: strictly nearer to `user`, or equally near and inserted
      earlier (the sort is stable). */
  ghost predicate RanksBefore(keys: seq<Coord>, user: Coord, dist: (Coord, Coord) -> real, a: Coord, b: Coord) {
    || dist(user, a) < dist(user, b)
    || (dist(user, a) == dist(user, b) && IndexOf(keys, a) < IndexOf(keys, b))
  }

  /** `find_closest(user_coords, dct)`: a new dict holding the `Limit` keys of
      `dct` nearest to `user` (all of them when there are fewer), each with
      its list of titles, in the order of the stable sort. */
  method FindClosest(user: Coord, dct: Groups, dist: (Coord, Coord) -> real) returns (closest: Groups)
    requires dct.Valid()
    ensures closest.Valid()
    ensures |closest.keys| == Min(Limit, |dct.keys|)
    ensures forall c :: c in closest.titles ==> c in dct.titles && closest.titles[c] == dct.titles[c]
    ensures forall i, j :: 0 <= i < j < |closest.keys| ==>
              RanksBefore(dct.keys, user, dist, closest.keys[i], closest.keys[j])
    ensures forall a, b :: a in closest.titles && b in dct.titles && b !in closest.titles ==>
              RanksBefore(dct.keys, user, dist, a, b)
    ensures |dct.keys| <= Limit ==> closest.titles == dct.titles
  {
    var locations := RankByDistance(user, dct, dist);
    ghost var unsorted := locations;
    ghost var from;
    locations, from := SortByDistance(locations);
    closest := TakeNearest(user, dct, dist, unsorted, locations, from);
    KeptInOrder(user, dct, dist, unsorted, locations, from, closest);
    KeptBeforeDropped(user, dct, dist, unsorted, locations, from, closest);
    AllKeptWhenFew(user, dct, dist, unsorted, locations, from, closest);
  }

  /** `list_of_locations`: each key of the dict, in dict order, paired with
      its distance to `user`. */
  method RankByDistance(user: Coord, dct: Groups, dist: (Coord, Coord) -> real)
    returns (locations: seq<Ranked>)
    ensures |locations| == |dct.keys|
    ensures forall k :: 0 <= k < |locations| ==> locations[k] == Ranked(dist(user, dct.keys[k]), dct.keys[k])
  {
    locations := [];
    for i := 0 to |dct.keys|
      invariant |locations| == i
      invariant forall k :: 0 <= k < i ==> locations[k] == Ranked(dist(user, dct.keys[k]), dct.keys[k])
    {
      var coords := dct.keys[i];
      locations := locations + [Ranked(dist(user, coords), coords)];
    }
  }

  /** `new_dct`: the first `Limit` entries of the sorted list, each key with
      its list from `dct`, in sorted order. */
  method TakeNearest(ghost user: Coord, dct: Groups, ghost dist: (Coord, Coord) -> real,
                     ghost unsorted: seq<Ranked>, sorted: seq<Ranked>, ghost from: seq<nat>)
    returns (closest: Groups)
    requires SortedKeys(user, dct, dist, unsorted, sorted, from)
    ensures TopOfSorted(user, dct, dist, unsorted, sorted, from, closest)
  {
    var nearest := sorted[..Min(Limit, |sorted|)];
    closest := Empty;
    for k := 0 to |nearest|
      invariant closest.Valid()
      invariant |closest.keys| == k
      invariant forall j :: 0 <= j < k ==> closest.keys[j] == dct.keys[from[j]]
      invariant forall c :: c in closest.titles ==> c in dct.titles && closest.titles[c] == dct.titles[c]
    {
      var coords := nearest[k].coords;
      assert coords == dct.keys[from[k]];
      assert coords !in closest.keys by {
        forall j | 0 <= j < k ensures closest.keys[j] != coords {
          assert from[j] != from[k];
        }
      }
      closest := Assign(closest, coords, dct.titles[coords]);
    }
  }

  /** The sorted list, as `SortByDistance` leaves it, of the dict's keys. */
  ghost predicate SortedKeys(user: Coord, dct: Groups, dist: (Coord, Coord) -> real,
                             unsorted: seq<Ranked>, sorted: seq<Ranked>, from: seq<nat>)
  {
    && dct.Valid()
    && |unsorted| == |dct.keys|
    && (forall k :: 0 <= k < |unsorted| ==> unsorted[k] == Ranked(dist(user, dct.keys[k]), dct.keys[k]))
    && multiset(sorted) == multiset(unsorted)
    && StablySorted(unsorted, |unsorted|, sorted, from)
  }

  /** In a dict, a key's position is where it is stored. */
  lemma IndexOfKey(dct: Groups, p: nat)
    requires dct.Valid() && p < |dct.keys|
    ensures IndexOf(dct.keys, dct.keys[p]) == p
  {
    assert forall k :: 0 <= k < |dct.keys| && k != p ==> dct.keys[k] != dct.keys[p];
  }

  /** Every key of the dict has its place `l` in the sorted list. */
  lemma PlaceOf(user: Coord, dct: Groups, dist: (Coord, Coord) -> real,
                unsorted: seq<Ranked>, sorted: seq<Ranked>, from: seq<nat>, q: nat) returns (l: nat)
    requires SortedKeys(user, dct, dist, unsorted, sorted, from) && q < |dct.keys|
    ensures l < |sorted| && from[l] == q && sorted[l] == unsorted[q]
  {
    assert unsorted[q] in multiset(sorted);
    l :| 0 <= l < |sorted| && sorted[l] == unsorted[q];
    assert dct.keys[from[l]] == dct.keys[q];
  }

  /** The doctest of `find_closest` (main.py:94-95): a dict with a single
      location comes back unchanged, whatever the distance. */
  method FindClosestDoctest(dist: (Coord, Coord) -> real) returns (r: Groups)
    ensures r == Groups([Coord(43.41, 27.65)], map[Coord(43.41, 27.65) := ["Movie"]])
  {
    var dct := Groups([Coord(43.41, 27.65)], map[Coord(43.41, 27.65) := ["Movie"]]);
    r := FindClosest(Coord(48.56, 25.61), dct, dist);
    assert r.titles == dct.titles;
    assert r.keys[0] in r.titles;
    assert r.keys == [r.keys[0]];
  }

  /** What the sorted, truncated list gives the new dict. */
  ghost predicate TopOfSorted(user: Coord, dct: Groups, dist: (Coord, Coord) -> real,
                              unsorted: seq<Ranked>, sorted: seq<Ranked>, from: seq<nat>, closest: Groups)
  {
    && SortedKeys(user, dct, dist, unsorted, sorted, from) && closest.Valid()
    && |closest.keys| == Min(Limit, |sorted|)
    && (forall j :: 0 <= j < |closest.keys| ==> closest.keys[j] == dct.keys[from[j]])
    && (forall c :: c in closest.titles ==> c in dct.titles && closest.titles[c] == dct.titles[c])
  }

  /** The kept keys are in ranking order. */
  lemma KeptInOrder(user: Coord, dct: Groups, dist: (Coord, Coord) -> real,
                    unsorted: seq<Ranked>, sorted: seq<Ranked>, from: seq<nat>, closest: Groups)
    requires TopOfSorted(user, dct, dist, unsorted, sorted, from, closest)
    ensures forall i, j :: 0 <= i < j < |closest.keys| ==>
              RanksBefore(dct.keys, user, dist, closest.keys[i], closest.keys[j])
  {
    forall i, j | 0 <= i < j < |closest.keys|
      ensures RanksBefore(dct.keys, user, dist, closest.keys[i], closest.keys[j])
    {
      IndexOfKey(dct, from[i]);
      IndexOfKey(dct, from[j]);
      assert sorted[i] == unsorted[from[i]] && sorted[j] == unsorted[from[j]];
      assert sorted[i].distance <= sorted[j].distance;
    }
  }

  /** Every kept key ranks before every dropped one. */
  lemma KeptBeforeDropped(user: Coord, dct: Groups, dist: (Coord, Coord) -> real,
                          unsorted: seq<Ranked>, sorted: seq<Ranked>, from: seq<nat>, closest: Groups)
    requires TopOfSorted(user, dct, dist, unsorted, sorted, from, closest)
    ensures forall a, b :: a in closest.titles && b in dct.titles && b !in closest.titles ==>
              RanksBefore(dct.keys, user, dist, a, b)
  {
    forall a, b | a in closest.titles && b in dct.titles && b !in closest.titles
      ensures RanksBefore(dct.keys, user, dist, a, b)
    {
      var i := IndexOf(closest.keys, a);
      var q := IndexOf(dct.keys, b);
      var l := PlaceOf(user, dct, dist, unsorted, sorted, from, q);
      assert l >= |closest.keys| by {
        assert forall j :: 0 <= j < |closest.keys| ==> from[j] != q;
      }
      IndexOfKey(dct, from[i]);
      assert sorted[i] == unsorted[from[i]];
      assert sorted[i].distance <= sorted[l].distance;
    }
  }

  /** With at most `Limit` keys, every key is kept. */
  lemma AllKeptWhenFew(user: Coord, dct: Groups, dist: (Coord, Coord) -> real,
                       unsorted: seq<Ranked>, sorted: seq<Ranked>, from: seq<nat>, closest: Groups)
    requires TopOfSorted(user, dct, dist, unsorted, sorted, from, closest)
    ensures |dct.keys| <= Limit ==> closest.titles == dct.titles
  {
    if |dct.keys| <= Limit {
      forall b | b in dct.titles ensures b in closest.titles {
        var l := PlaceOf(user, dct, dist, unsorted, sorted, from, IndexOf(dct.keys, b));
        assert closest.keys[l] == b;
      }
    }
  }
}
