/**
 * The string operations that `readfile` in main.py applies to each line:
 * the substring test `year in line`, `line.strip()`, `split('\t')` and the
 * title normalisation `name.replace('{#', '#')`, with Python's semantics.
 */
module Text {

  /** Python's `str.isspace` for one character: the characters it accepts. */
  predicate IsSpace(ch: char) {
    var n := ch as int;
    (9 <= n <= 13) || (0x1c <= n <= 0x20) || n == 0x85 || n == 0xa0 || n == 0x1680
    || (0x2000 <= n <= 0x200a) || n == 0x2028 || n == 0x2029 || n == 0x202f
    || n == 0x205f || n == 0x3000
  }

  // ---------------------------------------------------------------------------
  // Substring test: `sub in s`
  // ---------------------------------------------------------------------------

  /** `sub` occurs in `s` starting at index `i`. */
  predicate OccursAt(s: string, sub: string, i: int) {
    0 <= i && i + |sub| <= |s| && s[i..i + |sub|] == sub
  }

  /** Python's `sub in s`: some position of `s` starts a copy of `sub`. The
      empty string is in every string, and nothing longer than `s` is. */
  predicate Contains(s: string, sub: string): (r: bool)
    ensures sub == [] ==> r
    ensures r ==> |sub| <= |s|
  {
    assert sub == [] ==> OccursAt(s, sub, 0);
    exists i | 0 <= i <= |s| - |sub| :: OccursAt(s, sub, i)
  }

  // ---------------------------------------------------------------------------
  // `str.strip()`
  // ---------------------------------------------------------------------------

  /** Drops leading whitespace: the result is the suffix of `s` that starts at
      its first non-space character. */
  function StripStart(s: string): (r: string)
    ensures |r| <= |s| && r == s[|s| - |r|..]
    ensures r == [] || !IsSpace(r[0])
    ensures forall k :: 0 <= k < |s| - |r| ==> IsSpace(s[k])
  {
    if s != [] && IsSpace(s[0]) then
      var r := StripStart(s[1..]);
      assert s[1..][|s| - 1 - |r|..] == s[|s| - |r|..];
      assert forall k :: 1 <= k < |s| - |r| ==> s[1..][k - 1] == s[k];
      r
    else s
  }

  /** Drops trailing whitespace: the result is the prefix of `s` that ends at
      its last non-space character. */
  function StripEnd(s: string): (r: string)
    ensures |r| <= |s| && r == s[..|r|]
    ensures r == [] || !IsSpace(r[|r| - 1])
    ensures forall k :: |r| <= k < |s| ==> IsSpace(s[k])
  {
    if s != [] && IsSpace(s[|s| - 1]) then
      var r := StripEnd(s[..|s| - 1]);
      assert s[..|s| - 1][..|r|] == s[..|r|];
      assert forall k :: |r| <= k < |s| - 1 ==> s[..|s| - 1][k] == s[k];
      r
    else s
  }

  /** `r` is the slice of `s` starting at `i`, and everything of `s` outside
      that slice is whitespace. */
  predicate TrimmedAt(s: string, r: string, i: int) {
    OccursAt(s, r, i)
    && (forall k :: 0 <= k < i ==> IsSpace(s[k]))
    && (forall k :: i + |r| <= k < |s| ==> IsSpace(s[k]))
  }

  /** Python's `s.strip()`: neither begins nor ends with whitespace. */
  function Strip(s: string): (r: string)
    ensures r == [] || (!IsSpace(r[0]) && !IsSpace(r[|r| - 1]))
  {
    StripEnd(StripStart(s))
  }

  /** `s.strip()` is the slice of `s` left when the whitespace at both ends is
      cut off, and only whitespace is cut off. */
  lemma StripTrims(s: string)
    ensures exists i :: TrimmedAt(s, Strip(s), i)
  {
    var t := StripStart(s);
    assert TrimmedAt(s, Strip(s), |s| - |t|);
  }

  /** Text with no whitespace at either end is left as it is. */
  lemma StripUnchanged(s: string)
    requires s != [] && !IsSpace(s[0]) && !IsSpace(s[|s| - 1])
    ensures Strip(s) == s
  {
    assert StripStart(s) == s;
  }

  // ---------------------------------------------------------------------------
  // `str.split(sep)` with an explicit one-character separator, and its inverse
  // ---------------------------------------------------------------------------

  /** Number of occurrences of `ch` in `s`. */
  function Count(s: string, ch: char): nat {
    if s == [] then 0 else (if s[0] == ch then 1 else 0) + Count(s[1..], ch)
  }

  /** `sep.join(fields)`. */
  function Join(fields: seq<string>, sep: char): string
    requires |fields| >= 1
  {
    if |fields| == 1 then fields[0] else fields[0] + [sep] + Join(fields[1..], sep)
  }

  /** Python's `s.split(sep)`: one field more than there are separators. */
  function Split(s: string, sep: char): (fields: seq<string>)
    ensures |fields| == Count(s, sep) + 1
  {
    if s == [] then [[]]
    else
      var rest := Split(s[1..], sep);
      if s[0] == sep then [[]] + rest
      else
        var fields := [[s[0]] + rest[0]] + rest[1..];
        assert fields[1..] == rest[1..];
        fields
  }

  /** No field holds the separator, and joining the fields with it gives the
      text back. */
  lemma {:induction false} JoinSplit(s: string, sep: char)
    ensures forall k :: 0 <= k < |Split(s, sep)| ==> sep !in Split(s, sep)[k]
    ensures Join(Split(s, sep), sep) == s
  {
    if s != [] {
      JoinSplit(s[1..], sep);
      var rest := Split(s[1..], sep);
      if s[0] == sep {
        assert ([[]] + rest)[1..] == rest;
        assert [] + [sep] + s[1..] == s;
      } else {
        var fields := [[s[0]] + rest[0]] + rest[1..];
        assert fields[1..] == rest[1..];
        if |rest| == 1 {
          assert [s[0]] + rest[0] == s;
        } else {
          assert Join(rest, sep) == rest[0] + [sep] + Join(rest[1..], sep);
          assert [s[0]] + rest[0] + [sep] + Join(rest[1..], sep) == s;
        }
      }
    }
  }

  /** Splitting a join of separator-free fields gives the fields back. */
  lemma {:induction false} SplitJoin(fields: seq<string>, sep: char)
    requires |fields| >= 1
    requires forall k :: 0 <= k < |fields| ==> sep !in fields[k]
    ensures Split(Join(fields, sep), sep) == fields
  {
    if |fields| == 1 {
      SplitField(fields[0], sep, []);
      assert fields[0] + [] == fields[0];
      assert Split([], sep) == [[]];
    } else {
      var j := Join(fields[1..], sep);
      SplitJoin(fields[1..], sep);
      var tail := [sep] + j;
      assert tail[1..] == j;
      var t := Split(tail, sep);
      assert t == [[]] + fields[1..];
      SplitField(fields[0], sep, tail);
      assert fields[0] + [sep] + j == fields[0] + tail;
      assert fields[0] + t[0] == fields[0];
      assert t[1..] == fields[1..];
      assert [fields[0]] + fields[1..] == fields;
    }
  }

  /** Prefixing a separator-free text `f` extends the first field only. */
  lemma {:induction false} SplitField(f: string, sep: char, tail: string)
    requires sep !in f
    ensures var t := Split(tail, sep); Split(f + tail, sep) == [f + t[0]] + t[1..]
  {
    var t := Split(tail, sep);
    if f == [] {
      assert f + tail == tail;
      assert f + t[0] == t[0];
      assert [t[0]] + t[1..] == t;
    } else {
      var s := f + tail;
      assert s[1..] == f[1..] + tail;
      SplitField(f[1..], sep, tail);
      var rest := Split(s[1..], sep);
      assert rest == [f[1..] + t[0]] + t[1..];
      assert s[0] == f[0] && s[0] != sep;
      assert Split(s, sep) == [[s[0]] + rest[0]] + rest[1..];
      assert rest[0] == f[1..] + t[0];
      assert rest[1..] == t[1..];
      assert [f[0]] + (f[1..] + t[0]) == f + t[0];
    }
  }

  /** Splitting text with two separators gives the three pieces between them. */
  lemma SplitThree(a: string, b: string, c: string, sep: char)
    requires sep !in a && sep !in b && sep !in c
    ensures Split(a + [sep] + b + [sep] + c, sep) == [a, b, c]
  {
    var fields := [a, b, c];
    assert Join(fields, sep) == a + [sep] + b + [sep] + c by {
      assert Join([b, c], sep) == b + [sep] + c by {
        assert [b, c][1..] == [c];
      }
      assert fields[1..] == [b, c];
      assert a + [sep] + (b + [sep] + c) == a + [sep] + b + [sep] + c;
    }
    SplitJoin(fields, sep);
  }

  /** `s.strip()` keeps every character from the non-space one at `a` through
      the non-space one at `c`: it is the slice `s[i..j]` for some `i` at or
      before `a` and some `j` after `c`. */
  lemma StripCovers(s: string, a: nat, c: nat) returns (i: nat, j: nat)
    requires a <= c < |s| && !IsSpace(s[a]) && !IsSpace(s[c])
    ensures i <= a && c < j <= |s| && Strip(s) == s[i..j]
  {
    var t := StripStart(s);
    var r := StripEnd(t);
    i := |s| - |t|;
    j := i + |r|;
    assert r == s[i..j];
  }

  /** Stripping text with two tabs keeps both tabs when the first and third
      pieces each hold a non-space character (at `a` and `b`): only the outer
      ends of the first and third pieces are cut. */
  lemma StripKeepsBothTabs(first: string, second: string, third: string, a: nat, b: nat)
    returns (head: string, tail: string)
    requires '\t' !in first && '\t' !in second && '\t' !in third
    requires a < |first| && !IsSpace(first[a]) && b < |third| && !IsSpace(third[b])
    ensures Strip(first + ['\t'] + second + ['\t'] + third) == head + ['\t'] + second + ['\t'] + tail
    ensures '\t' !in head && '\t' !in tail
  {
    var s := first + ['\t'] + second + ['\t'] + third;
    var off := |first| + |second| + 2;
    var i: nat, j: nat;
    i, j := StripCovers(s, a, off + b);
    head, tail := first[i..], third[..j - off];
    SliceOfThree(first, second, third, i, j);
    assert '\t' !in head by {
      SliceKeeps(first, i, |first|, '\t');
    }
    assert '\t' !in tail by {
      SliceKeeps(third, 0, j - off, '\t');
    }
  }

  /** A character absent from `s` is absent from every slice of it. */
  lemma SliceKeeps(s: string, i: nat, j: nat, ch: char)
    requires i <= j <= |s| && ch !in s
    ensures ch !in s[i..j]
  {
  }

  /** A slice of `first + [t] + second + [t] + third` that starts in `first`
      and ends in `third`. */
  lemma SliceOfThree(first: string, second: string, third: string, i: nat, j: nat)
    requires i <= |first| && |first| + |second| + 2 <= j <= |first| + |second| + 2 + |third|
    ensures (first + ['\t'] + second + ['\t'] + third)[i..j]
            == first[i..] + ['\t'] + second + ['\t'] + third[..j - (|first| + |second| + 2)]
  {
  }

  /** Stripping drops a leading whitespace character first. */
  lemma StripDropsFirst(s: string)
    requires s != [] && IsSpace(s[0])
    ensures Strip(s) == Strip(s[1..])
  {
  }

  /** Stripping text that starts with a tab removes that tab, and nothing
      else when the rest has no whitespace at either end. */
  lemma StripLeadingTab(rest: string)
    requires rest != [] && !IsSpace(rest[0]) && !IsSpace(rest[|rest| - 1])
    ensures Strip(['\t'] + rest) == rest
  {
    var s := ['\t'] + rest;
    assert s[1..] == rest && IsSpace(s[0]);
    StripDropsFirst(s);
    StripUnchanged(rest);
  }

  /** Stripping text that ends with a tab removes that tab, and nothing else
      when the rest has no whitespace at either end. */
  lemma StripTrailingTab(rest: string)
    requires rest != [] && !IsSpace(rest[0]) && !IsSpace(rest[|rest| - 1])
    ensures Strip(rest + ['\t']) == rest
  {
    var s := rest + ['\t'];
    assert s[0] == rest[0];
    assert StripStart(s) == s;
    assert s[..|s| - 1] == rest;
    assert StripEnd(s) == StripEnd(rest);
    StripUnchanged(rest);
    assert StripStart(rest) == rest;
  }

  /** Text with one tab splits into the two pieces around it. */
  lemma SplitTwo(first: string, second: string)
    requires '\t' !in first && '\t' !in second
    ensures Split(first + ['\t'] + second, '\t') == [first, second]
  {
    assert Join([first, second], '\t') == first + ['\t'] + second by {
      assert [first, second][1..] == [second];
    }
    SplitJoin([first, second], '\t');
  }

  // ---------------------------------------------------------------------------
  // Title normalisation: `name.replace('{#', '#')`
  // ---------------------------------------------------------------------------

  /** `s` starts with the two-character marker `{#`. */
  predicate StartsWithMarker(s: string) {
    |s| >= 2 && s[0] == '{' && s[1] == '#'
  }

  /** Python's `s.replace('{#', '#')`: scanning left to right, each
      non-overlapping `{#` becomes `#`. A title never grows, and a non-empty
      one stays non-empty. */
  function Unescape(s: string): (r: string)
    ensures |r| <= |s|
    ensures |s| > 0 ==> |r| > 0
  {
    if s == [] then []
    else if StartsWithMarker(s) then ['#'] + Unescape(s[2..])
    else [s[0]] + Unescape(s[1..])
  }

  /** The inverse direction: every `#` written as `{#`. */
  function Escape(s: string): string {
    if s == [] then []
    else if s[0] == '#' then ['{', '#'] + Escape(s[1..])
    else [s[0]] + Escape(s[1..])
  }

  /** Number of positions of `s` where `{#` starts (`s.count('{#')`; the
      marker cannot overlap itself). */
  function Markers(s: string): nat {
    if |s| < 2 then 0 else (if StartsWithMarker(s) then 1 else 0) + Markers(s[1..])
  }

  /** `s` with every `{` removed. */
  function DropBraces(s: string): string {
    if s == [] then [] else (if s[0] == '{' then [] else [s[0]]) + DropBraces(s[1..])
  }

  /** An escaped text never begins with `#`, so a `{` before it stays. */
  lemma {:induction false} EscapeHead(s: string)
    ensures Escape(s) == [] || Escape(s)[0] != '#'
  {
  }

  /** Unescaping undoes escaping: `Escape(s).replace('{#', '#') == s`. */
  lemma {:induction false} UnescapeEscape(s: string)
    ensures Unescape(Escape(s)) == s
  {
    if s != [] {
      UnescapeEscape(s[1..]);
      var e := Escape(s[1..]);
      if s[0] == '#' {
        assert (['{', '#'] + e)[2..] == e;
      } else {
        EscapeHead(s[1..]);
        assert ([s[0]] + e)[1..] == e;
      }
      assert [s[0]] + s[1..] == s;
    }
  }

  /** The replacement shortens the title by exactly one character per `{#`. */
  lemma {:induction false} UnescapeLength(s: string)
    ensures |Unescape(s)| == |s| - Markers(s)
  {
    if s != [] {
      if StartsWithMarker(s) {
        UnescapeLength(s[2..]);
        assert Markers(s[1..]) == Markers(s[2..]);
      } else {
        UnescapeLength(s[1..]);
      }
    }
  }

  /** The only characters the replacement removes are `{`s: every other
      character survives, in order. */
  lemma {:induction false} UnescapeDropsOnlyBraces(s: string)
    ensures DropBraces(Unescape(s)) == DropBraces(s)
  {
    if s != [] {
      if StartsWithMarker(s) {
        UnescapeDropsOnlyBraces(s[2..]);
        assert (['#'] + Unescape(s[2..]))[1..] == Unescape(s[2..]);
        assert s[1..][1..] == s[2..];
      } else {
        UnescapeDropsOnlyBraces(s[1..]);
        assert ([s[0]] + Unescape(s[1..]))[1..] == Unescape(s[1..]);
      }
    }
  }

  /** A title is left unchanged exactly when it holds no `{#`. */
  lemma {:induction false} UnescapeUnchangedIff(s: string)
    ensures Unescape(s) == s <==> Markers(s) == 0
  {
    UnescapeLength(s);
    if Markers(s) == 0 {
      UnescapeNoMarker(s);
    }
  }

  lemma {:induction false} UnescapeNoMarker(s: string)
    requires Markers(s) == 0
    ensures Unescape(s) == s
  {
    if s != [] {
      if |s| >= 2 {
        UnescapeNoMarker(s[1..]);
      }
      assert [s[0]] + s[1..] == s;
    }
  }

  /** The replacement is not idempotent: `{{##` becomes `{##`, which a second
      pass turns into `##`. */
  lemma UnescapeNotIdempotent()
    ensures Unescape("{{##") == "{##"
    ensures Unescape(Unescape("{{##")) == "##"
  {
    assert Unescape("#") == "#";
    assert Unescape("##") == "##";
    assert "{{##"[1..] == "{##";
    assert "{##"[2..] == "#";
  }

  /** The replacement keeps the `#`: `Mo{#vie` becomes `Mo#vie`. */
  lemma UnescapeKeepsHash()
    ensures Unescape("Mo{#vie") == "Mo#vie"
  {
    assert "Mo{#vie"[1..] == "o{#vie";
    assert "o{#vie"[1..] == "{#vie";
    assert "{#vie"[2..] == "vie";
    assert Unescape("vie") == "vie";
  }
}
