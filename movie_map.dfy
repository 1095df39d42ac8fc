/**
 * `main_worker` (main.py:109-117): read the file for the year, keep the ten
 * locations nearest to the user, and hand them to the map renderer (not part
 * of this model); the method returns what the renderer would receive.
 */
module MovieMap {
  import opened Wrappers
  import opened LocationGroups
  import opened Aggregator
  import opened Ranker

  /** The token `readfile` searches for: the year in parentheses (main.py:114). */
  function YearToken(year: string): (token: string)
    ensures |token| == |year| + 2
    ensures token[0] == '(' && token[|token| - 1] == ')' && token[1..|token| - 1] == year
  {
    "(" + year + ")"
  }

  /** `main_worker(file, coordinates, year, num_of_films)` up to `put_on_map`:
      at most ten of the aggregated locations, each with its list from
      `readfile`: exactly the normalised titles of the lines read that
      resolve there. */
  method MainWorker(lines: seq<string>, user: Coord, year: string, numOfFilms: int,
                    locate: string -> Option<Coord>, dist: (Coord, Coord) -> real)
    returns (shown: Groups)
    ensures shown.Valid()
    ensures var agg := Aggregate(lines, YearToken(year), numOfFilms, locate);
            && |shown.keys| == Min(Limit, |agg.keys|)
            && (forall c :: c in shown.titles ==> c in agg.titles && shown.titles[c] == agg.titles[c])
            && (forall i, j :: 0 <= i < j < |shown.keys| ==>
                  RanksBefore(agg.keys, user, dist, shown.keys[i], shown.keys[j]))
            && (forall a, b :: a in shown.titles && b in agg.titles && b !in shown.titles ==>
                  RanksBefore(agg.keys, user, dist, a, b))
    ensures numOfFilms >= 1 ==> |shown.keys| <= Min(Limit, numOfFilms)
    ensures var token := YearToken(year);
            var fates := Fates(lines, token, locate);
            var read := LinesRead(lines, token, numOfFilms, locate);
            forall c :: c in shown.titles ==>
              shown.titles[c] == TitlesFor(fates[..read], c) && shown.titles[c] != []
  {
    var token := YearToken(year);
    var dct := ReadFile(lines, token, numOfFilms, locate);
    shown := FindClosest(user, dct, dist);
    ghost var fates := Fates(lines, token, locate);
    ghost var read := LinesRead(lines, token, numOfFilms, locate);
    forall c | c in shown.titles
      ensures shown.titles[c] == TitlesFor(fates[..read], c)
    {
      GroupedByCoordinate(fates[..read], c);
    }
  }
}
