/**
 * `readfile` (main.py:26-50): one pass over the lines of the file, keeping
 * the lines that mention the year token, grouping their titles by the
 * coordinate the geocoder gives for their location, and stopping as soon as
 * a cap check finds `number` distinct coordinates.
 *
 * The file is the sequence of its decoded lines. The geocoder behind
 * `locate` is the parameter `locate`, a deterministic function that gives
 * `None` where `locate` raises. What the loop does with a line depends on
 * that line alone, so the specification first computes each line's fate and
 * then folds the dict over the fates.
 */
module Aggregator {
  import opened Wrappers
  import opened Text
  import opened LocationGroups

  /** What the loop body does with one line. */
  datatype LineFate =
    | NoYear                             // the year token is absent: fall through to the cap check
    | Malformed                          // not exactly two tab-separated fields: `continue`
    | Unresolved                         // `locate` raised: `continue`
    | Kept(at: Coord, title: string)     // the normalised title goes under `at`
  {
    /** The line reaches the cap check at the end of the body (a `continue`
        skips it). */
    predicate ReachesCapCheck() {
      NoYear? || Kept?
    }
  }

  /** The fate of `line` (main.py:35-47): lines without the year token fall
      through, and a line with it is malformed exactly when its stripped text
      does not split into two tab-separated fields. */
  function Fate(line: string, year: string, locate: string -> Option<Coord>): (r: LineFate)
    ensures r == NoYear <==> !Contains(line, year)
    ensures r == Malformed <==> Contains(line, year) && |Split(Strip(line), '\t')| != 2
  {
    if !Contains(line, year) then NoYear
    else
      var fields := Split(Strip(line), '\t');
      if |fields| != 2 then Malformed
      else match locate(fields[1])
        case None => Unresolved
        case Some(c) => Kept(c, Unescape(fields[0]))
  }

  /** The fate of every line of the file, in order. */
  function Fates(lines: seq<string>, year: string, locate: string -> Option<Coord>): (fates: seq<LineFate>)
    ensures |fates| == |lines|
    decreases |lines|
  {
    if lines == [] then []
    else Fates(lines[..|lines| - 1], year, locate) + [Fate(lines[|lines| - 1], year, locate)]
  }

  /** The fate at index `i` is the fate of line `i`. */
  lemma {:induction false} FateAt(lines: seq<string>, i: nat, year: string, locate: string -> Option<Coord>)
    requires i < |lines|
    ensures Fates(lines, year, locate)[i] == Fate(lines[i], year, locate)
    decreases |lines|
  {
    var init := lines[..|lines| - 1];
    if i < |init| {
      FateAt(init, i, year, locate);
      assert init[i] == lines[i];
    }
  }

  /** Each line's fate sits at that line's index. */
  lemma FateOfEachLine(lines: seq<string>, year: string, locate: string -> Option<Coord>)
    ensures forall i :: 0 <= i < |lines| ==> Fates(lines, year, locate)[i] == Fate(lines[i], year, locate)
  {
    forall i | 0 <= i < |lines|
      ensures Fates(lines, year, locate)[i] == Fate(lines[i], year, locate)
    {
      FateAt(lines, i, year, locate);
    }
  }

  /** The fates of a prefix of the file are the prefix of its fates. */
  lemma {:induction false} FatesPrefix(lines: seq<string>, k: nat, year: string, locate: string -> Option<Coord>)
    requires k <= |lines|
    ensures Fates(lines, year, locate)[..k] == Fates(lines[..k], year, locate)
    decreases |lines|
  {
    if k < |lines| {
      var init := lines[..|lines| - 1];
      FatesPrefix(init, k, year, locate);
      assert init[..k] == lines[..k];
      assert Fates(lines, year, locate)[..|init|] == Fates(init, year, locate);
    } else {
      assert lines[..k] == lines;
    }
  }

  /** The dict after the body has handled a line of fate `f`: still a dict,
      the keys so far in their order, and at most one key more. */
  function Apply(d: Groups, f: LineFate): (r: Groups)
    requires d.Valid()
    ensures r.Valid()
    ensures |d.keys| <= |r.keys| <= |d.keys| + 1 && r.keys[..|d.keys|] == d.keys
  {
    match f
    case Kept(c, title) => Add(d, c, title)
    case _ => d
  }

  /** The dict after handling lines of fates `fates` in turn, ignoring the cap. */
  function Grouped(fates: seq<LineFate>): (g: Groups)
    ensures g.Valid()
    ensures forall c :: c in g.titles ==> g.titles[c] != []
    decreases |fates|
  {
    if fates == [] then Empty else Apply(Grouped(fates[..|fates| - 1]), fates[|fates| - 1])
  }

  /** The loop stops right after its `j`-th line: that line reached the cap
      check (main.py:48) and the dict then held exactly `number` keys. */
  predicate StopsAfter(fates: seq<LineFate>, j: int, number: int) {
    && 1 <= j <= |fates|
    && fates[j - 1].ReachesCapCheck()
    && |Grouped(fates[..j]).keys| == number
  }

  /** The first `k > from` after which the loop stops, or the number of lines
      when it runs to the end of the file. */
  function FirstStop(fates: seq<LineFate>, from: nat, number: int): (k: nat)
    requires from <= |fates|
    ensures from <= k <= |fates|
    ensures k < |fates| ==> StopsAfter(fates, k, number)
    ensures forall j :: from < j < k ==> !StopsAfter(fates, j, number)
    decreases |fates| - from
  {
    if from == |fates| then from
    else if StopsAfter(fates, from + 1, number) then from + 1
    else FirstStop(fates, from + 1, number)
  }

  /** How many lines `readfile` reads. */
  function LinesRead(lines: seq<string>, year: string, number: int,
                     locate: string -> Option<Coord>): nat
  {
    FirstStop(Fates(lines, year, locate), 0, number)
  }

  /** What `readfile` returns: the grouping of exactly the lines it reads,
      a dict in which every key has at least one title. */
  function Aggregate(lines: seq<string>, year: string, number: int,
                     locate: string -> Option<Coord>): (r: Groups)
    ensures r.Valid()
    ensures forall c :: c in r.titles ==> r.titles[c] != []
  {
    var fates := Fates(lines, year, locate);
    Grouped(fates[..FirstStop(fates, 0, number)])
  }

  /** `readfile(file, year, number)` over the file's lines. */
  method ReadFile(lines: seq<string>, year: string, number: int,
                  locate: string -> Option<Coord>) returns (dct: Groups)
    ensures dct == Aggregate(lines, year, number, locate)
    ensures number >= 1 ==> |dct.keys| <= number
  {
    ghost var fates := Fates(lines, year, locate);
    dct := Empty;
    var i := 0;
    while i < |lines|
      invariant 0 <= i <= |lines|
      invariant dct == Grouped(fates[..i])
      invariant NoStopWithin(fates, i, number)
      invariant number >= 1 ==> |dct.keys| < number
    {
      ReadStep(fates, i, number);
      var checkCap;
      dct, checkCap := HandleLine(dct, lines[i], year, locate, lines, i);
      i := i + 1;
      if checkCap && |dct.keys| == number {
        break;
      }
    }
    FirstStopIs(fates, i, number);
  }

  /** The body of the loop for the line at index `i` of the file, up to the
      cap check: `checkCap` is false where the body ends in `continue`. */
  method HandleLine(dct: Groups, line: string, year: string, locate: string -> Option<Coord>,
                    ghost lines: seq<string>, ghost i: nat)
    returns (dct': Groups, checkCap: bool)
    requires dct.Valid() && i < |lines| && lines[i] == line
    ensures dct' == Apply(dct, Fates(lines, year, locate)[i])
    ensures checkCap == Fates(lines, year, locate)[i].ReachesCapCheck()
  {
    FateOfEachLine(lines, year, locate);
    dct', checkCap := dct, true;
    if Contains(line, year) {
      var fields := Split(Strip(line), '\t');
      if |fields| != 2 {
        assert Fate(line, year, locate) == Malformed;
        checkCap := false;
        return;
      }
      var location := locate(fields[1]);
      if location.None? {
        assert Fate(line, year, locate) == Unresolved;
        checkCap := false;
        return;
      }
      assert Fate(line, year, locate) == Kept(location.value, Unescape(fields[0]));
      dct' := Add(dct, location.value, Unescape(fields[0]));
    } else {
      assert Fate(line, year, locate) == NoYear;
    }
  }

  /** The loop has not stopped after any of the first `i` lines. */
  predicate NoStopWithin(fates: seq<LineFate>, i: int, number: int) {
    forall j :: 1 <= j <= i ==> !StopsAfter(fates, j, number)
  }

  /** What handling line `i` does to the loop's invariant: the dict takes one
      more `Apply`, the loop stops exactly when a checked line brings the count
      to `number`, and otherwise the count stays below `number`. */
  lemma ReadStep(fates: seq<LineFate>, i: nat, number: int)
    requires i < |fates| && NoStopWithin(fates, i, number)
    requires number >= 1 ==> |Grouped(fates[..i]).keys| < number
    ensures var after := Grouped(fates[..i + 1]);
            && after == Apply(Grouped(fates[..i]), fates[i])
            && (fates[i].ReachesCapCheck() && |after.keys| == number <==> StopsAfter(fates, i + 1, number))
            && (!StopsAfter(fates, i + 1, number) ==> NoStopWithin(fates, i + 1, number))
            && (number >= 1 && !StopsAfter(fates, i + 1, number) ==> |after.keys| < number)
  {
    GroupedStep(fates, i);
    assert |Grouped(fates[..i + 1]).keys| <= |Grouped(fates[..i]).keys| + 1;
  }

  /** One more line is one more `Apply`. */
  lemma GroupedStep(fates: seq<LineFate>, i: nat)
    requires i < |fates|
    ensures Grouped(fates[..i + 1]) == Apply(Grouped(fates[..i]), fates[i])
  {
    assert fates[..i + 1][..i] == fates[..i];
  }

  /** The stopping point is the first line after which the loop stops. */
  lemma FirstStopIs(fates: seq<LineFate>, k: nat, number: int)
    requires k <= |fates|
    requires forall j :: 1 <= j < k ==> !StopsAfter(fates, j, number)
    requires k == |fates| || StopsAfter(fates, k, number)
    ensures FirstStop(fates, 0, number) == k
  {
  }

  // ---------------------------------------------------------------------------
  // Properties of the specification
  // ---------------------------------------------------------------------------

  /** Before the loop stops, the dict holds fewer than `number` keys. */
  lemma {:induction false} BelowCap(fates: seq<LineFate>, j: nat, number: int)
    requires number >= 1 && j <= |fates|
    requires forall i :: 1 <= i <= j ==> !StopsAfter(fates, i, number)
    ensures |Grouped(fates[..j]).keys| < number
  {
    if j > 0 {
      BelowCap(fates, j - 1, number);
      GroupedStep(fates, j - 1);
      assert !StopsAfter(fates, j, number);
    }
  }

  /** With `number >= 1` the result never holds more than `number` keys:
      each line adds at most one key and the loop stops at equality. */
  lemma AggregateWithinCap(lines: seq<string>, year: string, number: int,
                           locate: string -> Option<Coord>)
    requires number >= 1
    ensures |Aggregate(lines, year, number, locate).keys| <= number
  {
    var fates := Fates(lines, year, locate);
    var k := FirstStop(fates, 0, number);
    if k > 0 {
      BelowCap(fates, k - 1, number);
      GroupedStep(fates, k - 1);
    }
  }

  /** Once the loop stops, no later line is read: replacing everything after
      the stopping line by any `rest` changes neither the stopping point nor
      the result. */
  lemma LaterLinesUnread(lines: seq<string>, rest: seq<string>, year: string, number: int,
                         locate: string -> Option<Coord>)
    requires LinesRead(lines, year, number, locate) < |lines|
    ensures var k := LinesRead(lines, year, number, locate);
            && LinesRead(lines[..k] + rest, year, number, locate) == k
            && Aggregate(lines[..k] + rest, year, number, locate) == Aggregate(lines, year, number, locate)
  {
    var fates := Fates(lines, year, locate);
    var k := FirstStop(fates, 0, number);
    var other := Fates(lines[..k] + rest, year, locate);
    assert fates[..k] == other[..k] by {
      FatesPrefix(lines, k, year, locate);
      FatesPrefix(lines[..k] + rest, k, year, locate);
      assert (lines[..k] + rest)[..k] == lines[..k];
    }
    StopDependsOnPrefix(fates, other, number);
  }

  /** Whether the loop stops within the first `k` lines, and where, depends on
      those lines alone. */
  lemma StopDependsOnPrefix(fates: seq<LineFate>, other: seq<LineFate>, number: int)
    requires FirstStop(fates, 0, number) < |fates|
    requires FirstStop(fates, 0, number) <= |other|
    requires other[..FirstStop(fates, 0, number)] == fates[..FirstStop(fates, 0, number)]
    ensures FirstStop(other, 0, number) == FirstStop(fates, 0, number)
  {
    var k := FirstStop(fates, 0, number);
    forall j | 1 <= j <= k
      ensures other[..j] == fates[..j] && other[j - 1] == fates[j - 1]
    {
      assert other[..j] == other[..k][..j];
      assert fates[..j] == fates[..k][..j];
      assert other[j - 1] == other[..k][j - 1];
      assert fates[j - 1] == fates[..k][j - 1];
    }
    assert StopsAfter(other, k, number) by {
      assert StopsAfter(fates, k, number);
    }
    forall j | 1 <= j < k
      ensures !StopsAfter(other, j, number)
    {
      assert !StopsAfter(fates, j, number);
    }
    FirstStopIs(other, k, number);
  }



  /** Appending a line appends its fate. */
  lemma FatesSnoc(before: seq<string>, line: string, year: string, locate: string -> Option<Coord>)
    ensures Fates(before + [line], year, locate) == Fates(before, year, locate) + [Fate(line, year, locate)]
  {
    assert (before + [line])[..|before|] == before;
  }

  /** Handling one more line applies its fate to the dict so far. */
  lemma GroupedSnoc(before: seq<string>, line: string, year: string, locate: string -> Option<Coord>)
    ensures Grouped(Fates(before + [line], year, locate))
            == Apply(Grouped(Fates(before, year, locate)), Fate(line, year, locate))
  {
    FatesSnoc(before, line, year, locate);
    var fates := Fates(before + [line], year, locate);
    assert fates[..|before|] == Fates(before, year, locate);
    GroupedStep(fates, |before|);
  }

  /** A line is kept exactly when it holds the year token, its stripped text
      splits into two tab-separated fields, and the second field resolves; it
      is then kept under that coordinate with the normalised first field. */
  lemma KeptIff(line: string, year: string, locate: string -> Option<Coord>)
    ensures var fields := Split(Strip(line), '\t');
            Fate(line, year, locate).Kept? <==> Contains(line, year) && |fields| == 2 && locate(fields[1]).Some?
    ensures var fields := Split(Strip(line), '\t');
            Fate(line, year, locate).Kept? ==>
              Fate(line, year, locate) == Kept(locate(fields[1]).value, Unescape(fields[0]))
  {
  }

  /** A line leaves the dict exactly as it was unless it holds the year token,
      its stripped text splits into exactly two tab-separated fields, and the
      second field resolves (main.py:35-43). */
  lemma LineChangesIff(before: seq<string>, line: string, year: string,
                       locate: string -> Option<Coord>)
    ensures var fields := Split(Strip(line), '\t');
            Grouped(Fates(before + [line], year, locate)) != Grouped(Fates(before, year, locate))
            <==> Contains(line, year) && |fields| == 2 && locate(fields[1]).Some?
  {
    GroupedSnoc(before, line, year, locate);
    KeptIff(line, year, locate);
    var d := Grouped(Fates(before, year, locate));
    var f := Fate(line, year, locate);
    if f.Kept? {
      assert |Apply(d, f).titles[f.at]| == |Lookup(d, f.at)| + 1;
    }
  }

  /** A line that does contribute appends its normalised title at the end of
      the list for its coordinate; the key is new exactly when it was absent,
      and every other key's list is unchanged (main.py:44-47). */
  lemma LineAppendsTitle(before: seq<string>, line: string, year: string,
                         locate: string -> Option<Coord>, c: Coord)
    requires Contains(line, year)
    requires |Split(Strip(line), '\t')| == 2
    requires locate(Split(Strip(line), '\t')[1]) == Some(c)
    ensures var d := Grouped(Fates(before, year, locate));
            var r := Grouped(Fates(before + [line], year, locate));
            && r.keys == (if c in d.titles then d.keys else d.keys + [c])
            && r.titles[c] == Lookup(d, c) + [Unescape(Split(Strip(line), '\t')[0])]
            && forall k :: k != c ==> Lookup(r, k) == Lookup(d, k)
  {
    GroupedSnoc(before, line, year, locate);
    KeptIff(line, year, locate);
  }

  /** The title a line of fate `f` contributes under `c`, if any. */
  function OwnTitle(f: LineFate, c: Coord): seq<string> {
    if f.Kept? && f.at == c then [f.title] else []
  }

  /** The titles that lines of fates `fates` contribute under `c`, in file
      order: a declarative description of the grouping. */
  function TitlesFor(fates: seq<LineFate>, c: Coord): seq<string> {
    if fates == [] then [] else OwnTitle(fates[0], c) + TitlesFor(fates[1..], c)
  }

  lemma {:induction false} TitlesForSnoc(fates: seq<LineFate>, f: LineFate, c: Coord)
    ensures TitlesFor(fates + [f], c) == TitlesFor(fates, c) + OwnTitle(f, c)
  {
    if fates == [] {
      assert fates + [f] == [f];
      assert TitlesFor([f], c) == OwnTitle(f, c) + TitlesFor([], c) by {
        assert [f][1..] == [];
      }
    } else {
      TitlesForSnoc(fates[1..], f, c);
      assert TitlesFor(fates + [f], c) == OwnTitle(fates[0], c) + TitlesFor(fates[1..] + [f], c) by {
        var longer := fates + [f];
        assert longer[0] == fates[0];
        assert longer[1..] == fates[1..] + [f];
      }
    }
  }

  /** Handling a line of fate `f` extends the list under `c` by the title the
      line contributes there. */
  lemma ApplyLookup(d: Groups, f: LineFate, c: Coord)
    requires d.Valid()
    ensures Lookup(Apply(d, f), c) == Lookup(d, c) + OwnTitle(f, c)
  {
    if !f.Kept? {
      assert OwnTitle(f, c) == [];
      assert Lookup(d, c) + [] == Lookup(d, c);
    } else if f.at != c {
      assert Lookup(d, c) + [] == Lookup(d, c);
    }
  }

  /** The dict groups the contributing lines by coordinate: a coordinate is a
      key exactly when some line contributes to it, and its list holds the
      normalised titles of those lines in file order, nothing else. */
  lemma {:induction false} GroupedByCoordinate(fates: seq<LineFate>, c: Coord)
    ensures var g := Grouped(fates);
            && (c in g.titles <==> TitlesFor(fates, c) != [])
            && Lookup(g, c) == TitlesFor(fates, c)
  {
    if fates != [] {
      var before := fates[..|fates| - 1];
      var f := fates[|fates| - 1];
      var g := Grouped(fates);
      assert g == Apply(Grouped(before), f);
      assert TitlesFor(fates, c) == TitlesFor(before, c) + OwnTitle(f, c) by {
        TitlesForSnoc(before, f, c);
        assert before + [f] == fates;
      }
      assert Lookup(g, c) == TitlesFor(fates, c) by {
        GroupedByCoordinate(before, c);
        ApplyLookup(Grouped(before), f, c);
      }
    }
  }

  /** The index of the first line kept under `c`, or the number of lines when
      no line is (`FirstKeptIsFirst`). */
  function FirstKept(fates: seq<LineFate>, c: Coord): (k: nat)
    ensures k <= |fates|
  {
    if fates == [] then 0
    else if fates[0].Kept? && fates[0].at == c then 0
    else 1 + FirstKept(fates[1..], c)
  }

  /** `FirstKept` finds a line kept under `c`, and no earlier line is. */
  lemma {:induction false} FirstKeptIsFirst(fates: seq<LineFate>, c: Coord)
    ensures var k := FirstKept(fates, c);
            && (k < |fates| ==> fates[k].Kept? && fates[k].at == c)
            && (forall i :: 0 <= i < k ==> !(fates[i].Kept? && fates[i].at == c))
  {
    if fates != [] && !(fates[0].Kept? && fates[0].at == c) {
      FirstKeptIsFirst(fates[1..], c);
    }
  }

  /** One more line moves the first kept line under `c` only when there was
      none before. */
  lemma {:induction false} FirstKeptSnoc(fates: seq<LineFate>, f: LineFate, c: Coord)
    ensures FirstKept(fates + [f], c) ==
              if FirstKept(fates, c) < |fates| then FirstKept(fates, c)
              else if f.Kept? && f.at == c then |fates|
              else |fates| + 1
  {
    if fates != [] && !(fates[0].Kept? && fates[0].at == c) {
      FirstKeptSnoc(fates[1..], f, c);
      assert (fates + [f])[1..] == fates[1..] + [f];
    }
  }

  /** The same, for the last line of the file. */
  lemma FirstKeptLast(fates: seq<LineFate>, c: Coord)
    requires fates != []
    ensures var before := fates[..|fates| - 1];
            var f := fates[|fates| - 1];
            FirstKept(fates, c) ==
              if FirstKept(before, c) < |before| then FirstKept(before, c)
              else if f.Kept? && f.at == c then |before|
              else |fates|
  {
    FirstKeptSnoc(fates[..|fates| - 1], fates[|fates| - 1], c);
    assert fates[..|fates| - 1] + [fates[|fates| - 1]] == fates;
  }

  /** The keys after handling a line of fate `f`: a new coordinate goes last. */
  lemma ApplyKeys(d: Groups, f: LineFate)
    requires d.Valid()
    ensures Apply(d, f).keys == if f.Kept? && f.at !in d.titles then d.keys + [f.at] else d.keys
  {
  }

  /** A coordinate is a key exactly when some line is kept under it. */
  lemma {:induction false} KeyIffKept(fates: seq<LineFate>, c: Coord)
    ensures c in Grouped(fates).titles <==> FirstKept(fates, c) < |fates|
  {
    if fates != [] {
      var before := fates[..|fates| - 1];
      var f := fates[|fates| - 1];
      var d := Grouped(before);
      var g := Grouped(fates);
      assert c in g.titles <==> c in d.titles || (f.Kept? && f.at == c) by {
        assert g == Apply(d, f);
        ApplyKeys(d, f);
        assert c in g.titles <==> c in g.keys;
        assert c in d.titles <==> c in d.keys;
      }
      KeyIffKept(before, c);
      FirstKeptLast(fates, c);
    }
  }

  /** The keys' first kept lines increase along the keys. */
  lemma {:induction false} KeysByFirstKept(fates: seq<LineFate>)
    ensures forall i, j :: 0 <= i < j < |Grouped(fates).keys| ==>
              FirstKept(fates, Grouped(fates).keys[i]) < FirstKept(fates, Grouped(fates).keys[j])
  {
    if fates != [] {
      var before := fates[..|fates| - 1];
      var f := fates[|fates| - 1];
      var d := Grouped(before);
      var g := Grouped(fates);
      KeysByFirstKept(before);
      forall i | 0 <= i < |d.keys|
        ensures FirstKept(fates, d.keys[i]) == FirstKept(before, d.keys[i]) < |before|
      {
        assert d.keys[i] in d.titles;
        KeyIffKept(before, d.keys[i]);
        FirstKeptLast(fates, d.keys[i]);
      }
      assert g == Apply(d, f);
      ApplyKeys(d, f);
      assert g.keys[..|d.keys|] == d.keys;
      forall i, j | 0 <= i < j < |g.keys|
        ensures FirstKept(fates, g.keys[i]) < FirstKept(fates, g.keys[j])
      {
        assert g.keys[i] == d.keys[i];
        if j < |d.keys| {
          assert g.keys[j] == d.keys[j];
          assert FirstKept(before, d.keys[i]) < FirstKept(before, d.keys[j]);
        } else {
          assert g.keys[j] == f.at && f.at !in d.titles;
          KeyIffKept(before, f.at);
          FirstKeptLast(fates, f.at);
        }
      }
    }
  }

  /** The keys of the dict are in first-seen order (main.py:44-46), the order
      that breaks ties in `find_closest`: a coordinate is a key exactly when
      some line is kept under it, and one key comes before another exactly
      when its first kept line does. */
  lemma KeysInFirstSeenOrder(fates: seq<LineFate>)
    ensures forall c :: c in Grouped(fates).titles <==> FirstKept(fates, c) < |fates|
    ensures var keys := Grouped(fates).keys;
            forall i, j :: 0 <= i < |keys| && 0 <= j < |keys| ==>
              (i < j <==> FirstKept(fates, keys[i]) < FirstKept(fates, keys[j]))
  {
    KeysByFirstKept(fates);
    forall c ensures c in Grouped(fates).titles <==> FirstKept(fates, c) < |fates| {
      KeyIffKept(fates, c);
    }
  }

  /** A line with three tab-separated fields whose first and third fields each
      hold a non-space character (at `a` and `b`) is malformed even when it
      holds the year token (main.py:37-39): `strip()` keeps both tabs, and
      only exactly two fields unpack. */
  lemma ExtraFieldMalformed(title: string, place: string, extra: string, a: nat, b: nat,
                            year: string, locate: string -> Option<Coord>)
    requires '\t' !in title && '\t' !in place && '\t' !in extra
    requires a < |title| && !IsSpace(title[a]) && b < |extra| && !IsSpace(extra[b])
    requires Contains(title + ['\t'] + place + ['\t'] + extra, year)
    ensures Fate(title + ['\t'] + place + ['\t'] + extra, year, locate) == Malformed
  {
    var head, tail := StripKeepsBothTabs(title, place, extra, a, b);
    SplitThree(head, place, tail, '\t');
  }

  /** A three-field line whose first field is blank is not skipped for having
      three fields: `strip()` removes the leading tab, and the two fields left
      unpack (main.py:37). */
  lemma BlankFirstFieldUnpacks(place: string, extra: string, year: string,
                               locate: string -> Option<Coord>)
    requires '\t' !in place && '\t' !in extra
    requires place != [] && !IsSpace(place[0]) && extra != [] && !IsSpace(extra[|extra| - 1])
    ensures Split(Strip(['\t'] + place + ['\t'] + extra), '\t') == [place, extra]
    ensures Fate(['\t'] + place + ['\t'] + extra, year, locate) != Malformed
  {
    var rest := place + ['\t'] + extra;
    assert ['\t'] + place + ['\t'] + extra == ['\t'] + rest;
    assert rest[0] == place[0] && rest[|rest| - 1] == extra[|extra| - 1];
    StripLeadingTab(rest);
    SplitTwo(place, extra);
  }

  /** Likewise a three-field line whose last field is blank: `strip()`
      removes the trailing tab (main.py:37). */
  lemma BlankLastFieldUnpacks(title: string, place: string, year: string,
                              locate: string -> Option<Coord>)
    requires '\t' !in title && '\t' !in place
    requires title != [] && !IsSpace(title[0]) && place != [] && !IsSpace(place[|place| - 1])
    ensures Split(Strip(title + ['\t'] + place + ['\t']), '\t') == [title, place]
    ensures Fate(title + ['\t'] + place + ['\t'], year, locate) != Malformed
  {
    var rest := title + ['\t'] + place;
    assert rest[0] == title[0] && rest[|rest| - 1] == place[|place| - 1];
    StripTrailingTab(rest);
    SplitTwo(title, place);
  }

  /** So the record `"Alpha\tCityX\t(2015)"` is dropped for the year token
      `"(2015)"`. */
  lemma ThreeFieldsDropped(locate: string -> Option<Coord>)
    ensures Fate("Alpha\tCityX\t(2015)", "(2015)", locate) == Malformed
  {
    var line := "Alpha" + ['\t'] + "CityX" + ['\t'] + "(2015)";
    assert line == "Alpha\tCityX\t(2015)";
    assert OccursAt(line, "(2015)", 12) by {
      assert line[12..18] == "(2015)";
    }
    ExtraFieldMalformed("Alpha", "CityX", "(2015)", 0, 5, "(2015)", locate);
  }

  /** The same record as read from the file, with its trailing newline. */
  lemma ThreeFieldsDroppedWithNewline(locate: string -> Option<Coord>)
    ensures Fate("Alpha\tCityX\t(2015)\n", "(2015)", locate) == Malformed
  {
    var line := "Alpha" + ['\t'] + "CityX" + ['\t'] + "(2015)\n";
    assert line == "Alpha\tCityX\t(2015)\n";
    assert OccursAt(line, "(2015)", 12) by {
      assert line[12..18] == "(2015)";
    }
    ExtraFieldMalformed("Alpha", "CityX", "(2015)\n", 0, 5, "(2015)", locate);
  }

  /** A line that ends in `continue` skips the cap check: with `number == 0`
      a malformed or unresolved first line does not stop the loop, and the
      next line without the year token does, before the rest of the file. */
  lemma ContinueSkipsCapCheck(f: LineFate)
    requires f == Malformed || f == Unresolved
    ensures !StopsAfter([f, NoYear, NoYear], 1, 0)
    ensures StopsAfter([f, NoYear, NoYear], 2, 0)
    ensures FirstStop([f, NoYear, NoYear], 0, 0) == 2
  {
    var fates := [f, NoYear, NoYear];
    assert Grouped([f]) == Empty by {
      assert [f][..0] == [];
    }
    assert Grouped([f, NoYear]) == Empty by {
      assert [f, NoYear][..1] == [f];
    }
    assert fates[..1] == [f] && fates[..2] == [f, NoYear];
    assert !StopsAfter(fates, 1, 0);
    assert StopsAfter(fates, 2, 0);
    FirstStopIs(fates, 2, 0);
  }
}
