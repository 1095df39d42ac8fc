/**
 * The dictionary that main.py builds and returns: keys are coordinates, values
 * are lists of film titles. A Python dict remembers the order in which keys
 * were first inserted, and that order decides ties in `find_closest`, so the
 * model keeps the keys as a sequence in insertion order beside a map holding
 * each key's list.
 */
module LocationGroups {

  /** A (latitude, longitude) pair as returned by the geocoder. */
  datatype Coord = Coord(lat: real, lon: real)

  /** A coordinate-to-titles dict: `keys` in insertion order, `titles` the
      value stored under each key. */
  datatype Groups = Groups(keys: seq<Coord>, titles: map<Coord, seq<string>>) {

    /** Dict invariant: each key once, and the keys are exactly the map's domain. */
    ghost predicate Valid() {
      && (forall i, j :: 0 <= i < j < |keys| ==> keys[i] != keys[j])
      && (forall c :: c in titles <==> c in keys)
    }
  }

  /** `{}` */
  const Empty := Groups([], map[])

  /** The list under `c`, or the empty list when `c` is not a key. */
  function Lookup(d: Groups, c: Coord): seq<string> {
    if c in d.titles then d.titles[c] else []
  }

  /** The grouping step of `readfile` (main.py:44-47): create the key with a
      one-title list when it is absent, otherwise append to its list. */
  function Add(d: Groups, c: Coord, title: string): (r: Groups)
    requires d.Valid()
    ensures r.Valid()
    ensures r.keys == if c in d.titles then d.keys else d.keys + [c]
    ensures c in r.titles && r.titles[c] == Lookup(d, c) + [title]
    ensures forall k :: k != c ==> Lookup(r, k) == Lookup(d, k)
  {
    if c !in d.titles then Groups(d.keys + [c], d.titles[c := [title]])
    else Groups(d.keys, d.titles[c := d.titles[c] + [title]])
  }

  /** Item assignment `d[c] = v` (main.py:105): a new key goes to the end, an
      existing key keeps its place and gets the new value. */
  function Assign(d: Groups, c: Coord, v: seq<string>): (r: Groups)
    requires d.Valid()
    ensures r.Valid()
    ensures r.keys == if c in d.titles then d.keys else d.keys + [c]
    ensures c in r.titles && r.titles[c] == v
    ensures forall k :: k != c ==> Lookup(r, k) == Lookup(d, k)
  {
    if c !in d.titles then Groups(d.keys + [c], d.titles[c := v])
    else Groups(d.keys, d.titles[c := v])
  }
}
