/** The keyword form of the admin page (`aiseo_admin_page`): the submitted
    text is split on every run of line feeds and commas, each piece is
    trimmed, falsy pieces ("" and "0") are dropped, and the success message
    reports how many keywords remain. */
module Admin {
  import opened Text

  predicate IsSep(c: char) {
    c == '\n' || c == ','
  }

  predicate NoSep(s: string) {
    forall i :: 0 <= i < |s| ==> !IsSep(s[i])
  }

  /** Position of the first separator, or the length when there is none. */
  function FirstSep(s: string): (i: nat)
    ensures i <= |s| && NoSep(s[..i]) && (i == |s| || IsSep(s[i]))
  {
    if s == [] || IsSep(s[0]) then 0
    else
      var i := 1 + FirstSep(s[1..]);
      assert s[..i] == [s[0]] + s[1..][..i - 1];
      i
  }

  predicate AllSeps(w: string) {
    forall i :: 0 <= i < |w| ==> IsSep(w[i])
  }

  /** Drops a leading run of separators: what remains is a suffix of `s`
      and everything dropped is a separator. */
  function SkipSeps(s: string): (r: string)
    ensures |r| <= |s| && r == s[|s| - |r|..]
    ensures AllSeps(s[..|s| - |r|])
    ensures r == [] || !IsSep(r[0])
    ensures s != [] && IsSep(s[0]) ==> |r| < |s| && RunThen(s, r)
  {
    if s != [] && IsSep(s[0]) then
      var r := SkipSeps(s[1..]);
      SkipStep(s, r);
      r
    else s
  }

  /** One more leading separator is one more dropped character. */
  lemma SkipStep(s: string, r: string)
    requires s != [] && IsSep(s[0])
    requires |r| <= |s| - 1 && r == s[1..][|s| - 1 - |r|..] && AllSeps(s[1..][..|s| - 1 - |r|])
    ensures r == s[|s| - |r|..] && AllSeps(s[..|s| - |r|])
    ensures RunThen(s, r)
  {
    var n := |s| - |r|;
    assert s[1..][n - 1..] == s[n..];
    assert s[..n] == [s[0]] + s[1..][..n - 1];
    RunThenRest(s, r);
  }

  /** A run of one or more separators. */
  predicate SepRun(w: string) {
    w != [] && AllSeps(w)
  }

  /** `pieces[0] + seps[0] + pieces[1] + ... + seps[n - 1] + pieces[n]`. */
  function Interleave(pieces: seq<string>, seps: seq<string>): string
    requires |pieces| == |seps| + 1
    decreases |seps|
  {
    if seps == [] then pieces[0] else pieces[0] + seps[0] + Interleave(pieces[1..], seps[1..])
  }

  /** `s` is `pieces` glued back together with a separator run between each
      two neighbours. */
  predicate Rebuilds(s: string, pieces: seq<string>, seps: seq<string>) {
    |pieces| == |seps| + 1 &&
    (forall k :: 0 <= k < |seps| ==> SepRun(seps[k])) &&
    Interleave(pieces, seps) == s
  }

  /** The characters of `s` that are not separators, in order. */
  function Kept(s: string): string
  {
    if s == [] then "" else (if IsSep(s[0]) then "" else [s[0]]) + Kept(s[1..])
  }

  function Concat(pieces: seq<string>): string
  {
    if pieces == [] then "" else pieces[0] + Concat(pieces[1..])
  }

  /** `preg_split('/[\n,]+/', $s)`: the pieces between maximal separator
      runs. `s` is the pieces with one separator run put back between each
      two neighbours; a leading or trailing run yields an empty first or last
      piece, every other piece is non-empty, no piece holds a separator, and
      the pieces together hold every other character of `s`, in order. */
  function SplitRuns(s: string): (r: seq<string>)
    ensures |r| >= 1
    ensures exists seps :: Rebuilds(s, r, seps)
    ensures forall k :: 0 <= k < |r| ==> NoSep(r[k])
    ensures forall k :: 0 < k < |r| - 1 ==> r[k] != ""
    ensures s != [] && !IsSep(s[0]) ==> r[0] != ""
    ensures Concat(r) == Kept(s)
    decreases |s|
  {
    var i := FirstSep(s);
    if i == |s| then
      KeptNoSep(s);
      assert Concat([s]) == s + Concat([]);
      assert Rebuilds(s, [s], []);
      [s]
    else
      var t := SkipSeps(s[i..]);
      var rest := SplitRuns(t);
      assert t == [] ==> rest == [""] by { assert t == [] ==> FirstSep(t) == 0; }
      StepRebuilds(s, i, rest);
      StepPieces(s[..i], rest);
      KeptSplit(s, i);
      assert !IsSep(s[0]) ==> i > 0 && s[..i][0] == s[0];
      assert ([s[..i]] + rest)[1..] == rest;
      [s[..i]] + rest
  }

  /** The text after the first separator run, rebuilt, rebuilds the whole
      text once the first piece is put in front. */
  lemma StepRebuilds(s: string, i: nat, rest: seq<string>)
    requires i < |s| && IsSep(s[i])
    requires exists seps :: Rebuilds(SkipSeps(s[i..]), rest, seps)
    ensures exists seps :: Rebuilds(s, [s[..i]] + rest, seps)
  {
    var u := s[i..];
    var t := SkipSeps(u);
    SkippedRun(s, i);
    RebuildCons(s[..i], u[..|u| - |t|], t, rest);
  }

  /** The piece facts of `SplitRuns` carry over to a list with one more
      piece in front. */
  lemma StepPieces(head: string, rest: seq<string>)
    requires NoSep(head) && |rest| >= 1
    requires forall k :: 0 <= k < |rest| ==> NoSep(rest[k])
    requires forall k :: 0 < k < |rest| - 1 ==> rest[k] != ""
    requires |rest| >= 2 ==> rest[0] != ""
    ensures var r := [head] + rest;
      (forall k :: 0 <= k < |r| ==> NoSep(r[k])) &&
      (forall k :: 0 < k < |r| - 1 ==> r[k] != "")
  {
    var r := [head] + rest;
    assert forall k :: 0 < k < |r| ==> r[k] == rest[k - 1];
  }

  /** Putting a piece and a separator run in front of a rebuilt rest
      rebuilds the longer text. */
  lemma RebuildCons(head: string, w: string, t: string, rest: seq<string>)
    requires SepRun(w)
    requires exists seps :: Rebuilds(t, rest, seps)
    ensures exists seps :: Rebuilds(head + w + t, [head] + rest, seps)
  {
    var tail :| Rebuilds(t, rest, tail);
    InterleaveCons(head, w, t, rest, tail);
  }

  /** Cutting `s` at a separator: the piece before it, the run `SkipSeps`
      drops, and what is left after the run. */
  lemma SkippedRun(s: string, i: nat)
    requires i < |s| && IsSep(s[i])
    ensures var u := s[i..]; var t := SkipSeps(u);
      SepRun(u[..|u| - |t|]) && s == s[..i] + u[..|u| - |t|] + t
  {
    var u := s[i..];
    assert u[0] == s[i];
    CutAt(s, i, u, SkipSeps(u));
  }

  /** A run-then-rest split of `s[i..]` splits `s` in three. */
  lemma CutAt(s: string, i: nat, u: string, t: string)
    requires i <= |s| && u == s[i..] && RunThen(u, t)
    ensures SepRun(u[..|u| - |t|]) && s == s[..i] + u[..|u| - |t|] + t
  {
    assert s == s[..i] + u;
    Assoc(s[..i], u[..|u| - |t|], t);
  }

  /** `u` is a non-empty run of separators followed by its suffix `t`. */
  predicate RunThen(u: string, t: string) {
    |t| < |u| && SepRun(u[..|u| - |t|]) && u == u[..|u| - |t|] + t
  }

  lemma RunThenRest(u: string, t: string)
    requires |t| < |u| && t == u[|u| - |t|..] && AllSeps(u[..|u| - |t|])
    ensures RunThen(u, t)
  {
    assert u == u[..|u| - |t|] + u[|u| - |t|..];
  }

  lemma InterleaveCons(head: string, w: string, t: string, rest: seq<string>, tail: seq<string>)
    requires SepRun(w) && Rebuilds(t, rest, tail)
    ensures Rebuilds(head + w + t, [head] + rest, [w] + tail)
  {
    var pieces := [head] + rest;
    var seps := [w] + tail;
    assert pieces[0] == head && pieces[1..] == rest;
    assert seps[0] == w && seps[1..] == tail;
  }

  lemma {:induction false} KeptNoSep(s: string)
    requires NoSep(s)
    ensures Kept(s) == s
    decreases |s|
  {
    if s != [] {
      KeptNoSep(s[1..]);
      assert [s[0]] + s[1..] == s;
    }
  }

  lemma {:induction false} KeptSeps(s: string)
    ensures Kept(s) == Kept(SkipSeps(s))
    decreases |s|
  {
    if s != [] && IsSep(s[0]) {
      KeptSeps(s[1..]);
    }
  }

  lemma {:induction false} KeptAppend(a: string, b: string)
    ensures Kept(a + b) == Kept(a) + Kept(b)
    decreases |a|
  {
    if a == [] {
      assert a + b == b;
    } else {
      assert (a + b)[1..] == a[1..] + b;
      KeptAppend(a[1..], b);
    }
  }

  /** Splitting at the first separator keeps the characters on both sides. */
  lemma KeptSplit(s: string, i: nat)
    requires i <= |s| && NoSep(s[..i])
    ensures Kept(s) == s[..i] + Kept(SkipSeps(s[i..]))
  {
    assert s == s[..i] + s[i..];
    KeptAppend(s[..i], s[i..]);
    KeptNoSep(s[..i]);
    KeptSeps(s[i..]);
  }

  /** `array_filter(array_map('trim', $pieces))`: the pieces trimmed, the
      falsy ones dropped. */
  function Clean(pieces: seq<string>): seq<string>
  {
    KeepTruthy(TrimAll(pieces))
  }

  /** A keyword as the form can yield one: truthy, free of separators, and
      with nothing left to trim. */
  predicate IsKeyword(w: string) {
    IsTruthy(w) && NoSep(w) && Trim(w) == w
  }

  /** The keywords the form yields: split, trimmed, falsy ones dropped. */
  function ParseKeywords(s: string): (r: seq<string>)
    ensures forall k :: 0 <= k < |r| ==> IsKeyword(r[k])
  {
    var pieces := SplitRuns(s);
    CleanTrimmed(pieces);
    Clean(pieces)
  }

  /** What cleaning keeps is trimmed and, when the pieces are, separator-free. */
  lemma CleanTrimmed(pieces: seq<string>)
    requires forall k :: 0 <= k < |pieces| ==> NoSep(pieces[k])
    ensures forall k :: 0 <= k < |Clean(pieces)| ==> NoSep(Clean(pieces)[k]) && Trim(Clean(pieces)[k]) == Clean(pieces)[k]
  {
    var trimmed := TrimAll(pieces);
    var r := Clean(pieces);
    forall k | 0 <= k < |r|
      ensures NoSep(r[k]) && Trim(r[k]) == r[k]
    {
      var j :| 0 <= j < |trimmed| && trimmed[j] == r[k];
      TrimmedEntry(pieces, j);
    }
  }

  lemma TrimmedEntry(pieces: seq<string>, j: nat)
    requires j < |pieces| && NoSep(pieces[j])
    ensures NoSep(TrimAll(pieces)[j]) && Trim(TrimAll(pieces)[j]) == TrimAll(pieces)[j]
  {
    TrimIdempotent(pieces[j]);
  }

  /** `array_map('trim', ...)`: one entry per piece, in order, each the
      trimmed piece; trimming never brings a separator into a piece. */
  function TrimAll(xs: seq<string>): (r: seq<string>)
    ensures |r| == |xs|
    ensures forall k :: 0 <= k < |r| ==> r[k] == Trim(xs[k])
    ensures forall k :: 0 <= k < |r| && NoSep(xs[k]) ==> NoSep(r[k])
  {
    if xs == [] then []
    else
      var rest := TrimAll(xs[1..]);
      TrimCons(xs, rest);
      [Trim(xs[0])] + rest
  }

  lemma TrimCons(xs: seq<string>, rest: seq<string>)
    requires xs != [] && |rest| == |xs| - 1
    requires forall k :: 0 <= k < |rest| ==> rest[k] == Trim(xs[1..][k])
    requires forall k :: 0 <= k < |rest| && NoSep(xs[1..][k]) ==> NoSep(rest[k])
    ensures var r := [Trim(xs[0])] + rest;
      (forall k :: 0 <= k < |r| ==> r[k] == Trim(xs[k])) &&
      (forall k :: 0 <= k < |r| && NoSep(xs[k]) ==> NoSep(r[k]))
  {
    var r := [Trim(xs[0])] + rest;
    TrimNoSep(xs[0]);
    ShiftedEntries(xs, rest, r);
  }

  /** `r` is `rest` with one entry put in front, and `rest` lines up with
      `xs` past its first entry. */
  lemma ShiftedEntries(xs: seq<string>, rest: seq<string>, r: seq<string>)
    requires xs != [] && |rest| == |xs| - 1 && |r| == |xs| && r[1..] == rest
    requires forall k :: 0 <= k < |rest| ==> rest[k] == Trim(xs[1..][k])
    requires forall k :: 0 <= k < |rest| && NoSep(xs[1..][k]) ==> NoSep(rest[k])
    ensures forall k :: 0 < k < |r| ==> r[k] == Trim(xs[k]) && (NoSep(xs[k]) ==> NoSep(r[k]))
  {
    forall k | 0 < k < |r|
      ensures r[k] == Trim(xs[k]) && (NoSep(xs[k]) ==> NoSep(r[k]))
    {
      assert r[k] == r[1..][k - 1] && xs[k] == xs[1..][k - 1];
    }
  }

  /** Trimming never brings a separator into a piece. */
  lemma TrimNoSep(s: string)
    ensures NoSep(s) ==> NoSep(Trim(s))
  {
    var r := Trim(s);
    var a: nat :| TrimmedAt(s, r, a);
    if NoSep(s) {
      SliceNoSep(s, a, a + |r|);
    }
  }

  lemma SliceNoSep(s: string, i: nat, j: nat)
    requires i <= j <= |s| && NoSep(s)
    ensures NoSep(s[i..j])
  {
    forall k | 0 <= k < j - i
      ensures !IsSep(s[i..j][k])
    {
      assert s[i..j][k] == s[i + k];
    }
  }

  /** `array_filter(...)` without a callback: only entries of `xs`, all
      truthy, and every truthy entry of `xs`. */
  function KeepTruthy(xs: seq<string>): (r: seq<string>)
    ensures |r| <= |xs|
    ensures forall k :: 0 <= k < |r| ==> IsTruthy(r[k]) && r[k] in xs
    ensures forall k :: 0 <= k < |xs| && IsTruthy(xs[k]) ==> xs[k] in r
  {
    if xs == [] then []
    else (if IsTruthy(xs[0]) then [xs[0]] else []) + KeepTruthy(xs[1..])
  }

  /** Filtering works entry by entry: it keeps the order of what survives. */
  lemma {:induction false} KeepTruthyAppend(a: seq<string>, b: seq<string>)
    ensures KeepTruthy(a + b) == KeepTruthy(a) + KeepTruthy(b)
    decreases |a|
  {
    if a == [] {
      assert a + b == b;
    } else {
      assert (a + b)[1..] == a[1..] + b;
      KeepTruthyAppend(a[1..], b);
    }
  }

  lemma CleanAppend(a: seq<string>, b: seq<string>)
    ensures Clean(a + b) == Clean(a) + Clean(b)
  {
    TrimAllAppend(a, b);
    KeepTruthyAppend(TrimAll(a), TrimAll(b));
  }

  lemma {:induction false} TrimAllAppend(a: seq<string>, b: seq<string>)
    ensures TrimAll(a + b) == TrimAll(a) + TrimAll(b)
    decreases |a|
  {
    if a == [] {
      assert a + b == b;
    } else {
      assert (a + b)[1..] == a[1..] + b;
      TrimAllAppend(a[1..], b);
    }
  }

  /** Cutting the text at any separator cuts the keyword list there: the
      keywords of `a`, a separator, then `b` are those of `a` followed by
      those of `b`. */
  lemma ParseSplitsAtSeparator(a: string, c: char, b: string)
    requires IsSep(c)
    ensures ParseKeywords(a + [c] + b) == ParseKeywords(a) + ParseKeywords(b)
  {
    CleanSplitsAtSeparator(a, c, b);
  }

  lemma {:induction false} CleanSplitsAtSeparator(a: string, c: char, b: string)
    requires IsSep(c)
    ensures Clean(SplitRuns(a + [c] + b)) == Clean(SplitRuns(a)) + Clean(SplitRuns(b))
    decreases |a|
  {
    var i := FirstSep(a);
    if i == |a| {
      ParseNoSepHead(a, c, b);
    } else {
      var rest := SkipSeps(a[i..]);
      ParseSepHead(a, c, b);
      if rest != [] {
        CleanSplitsAtSeparator(rest, c, b);
      }
    }
  }

  /** First case: `a` holds no separator, so it is the first piece. */
  lemma ParseNoSepHead(a: string, c: char, b: string)
    requires IsSep(c) && FirstSep(a) == |a|
    ensures Clean(SplitRuns(a + [c] + b)) == Clean(SplitRuns(a)) + Clean(SplitRuns(b))
  {
    var later := SplitRuns(SkipSeps(b));
    NoSepHeadPieces(a, c, b);
    SplitWhole(a);
    SplitSkipLead(b);
    CleanAppend([a], later);
  }

  lemma NoSepHeadPieces(a: string, c: char, b: string)
    requires IsSep(c) && FirstSep(a) == |a|
    ensures SplitRuns(a + [c] + b) == [a] + SplitRuns(SkipSeps(b))
  {
    var s := a + [c] + b;
    assert a[..|a|] == a;
    SlicesOfAppend(a, [c], b, |a|);
    FirstSepOf(a, [c] + b);
    SplitAtFirst(s, |a|);
    assert ([c] + b)[1..] == b;
  }

  /** `SplitRuns` of a text without separators is that text alone. */
  lemma SplitWhole(s: string)
    requires FirstSep(s) == |s|
    ensures SplitRuns(s) == [s]
  {
  }

  /** Second case: `a` has a first piece and then a separator run; what
      follows the run is the text the recursion continues on. */
  lemma ParseSepHead(a: string, c: char, b: string)
    requires IsSep(c) && FirstSep(a) < |a|
    ensures var rest := SkipSeps(a[FirstSep(a)..]);
      |rest| < |a| &&
      (rest == [] ==> Clean(SplitRuns(a + [c] + b)) == Clean(SplitRuns(a)) + Clean(SplitRuns(b))) &&
      (rest != [] ==> (Clean(SplitRuns(rest + [c] + b)) == Clean(SplitRuns(rest)) + Clean(SplitRuns(b)) ==>
                       Clean(SplitRuns(a + [c] + b)) == Clean(SplitRuns(a)) + Clean(SplitRuns(b))))
  {
    var i := FirstSep(a);
    var u := a[i..];
    var rest := SkipSeps(u);
    var head := [a[..i]];
    var s := a + [c] + b;
    SlicesOfAppend(a, [c], b, i);
    FirstSepPrefix(a, [c] + b);
    SplitAtFirst(s, i);
    SplitAtFirst(a, i);
    var v := SkipSeps(u + [c] + b);
    SkipSepsAppend(u, c, b);
    var later := SplitRuns(v);
    CleanAppend(head, later);
    CleanAppend(head, SplitRuns(rest));
    if rest == [] {
      SplitSkipLead(b);
      SplitWhole(rest);
      CleanEmptyPiece();
      ListAssoc(Clean(head), [], Clean(SplitRuns(b)));
    } else {
      ListAssoc(Clean(head), Clean(SplitRuns(rest)), Clean(SplitRuns(b)));
    }
  }

  /** The single empty piece of an empty text yields no keyword. */
  lemma CleanEmptyPiece()
    ensures Clean([""]) == []
  {
    assert Trim("") == "" by { TrimOfPadded("", "", ""); }
  }

  lemma ListCons(xs: seq<string>)
    requires xs != []
    ensures [xs[0]] + xs[1..] == xs
  {
  }

  lemma ListAssoc(x: seq<string>, y: seq<string>, z: seq<string>)
    ensures x + (y + z) == x + y + z && x + [] == x && [] + z == z
  {
  }

  /** `SplitRuns` unfolded once at a separator. */
  lemma SplitAtFirst(s: string, i: nat)
    requires i == FirstSep(s) && i < |s|
    ensures SplitRuns(s) == [s[..i]] + SplitRuns(SkipSeps(s[i..]))
  {
  }

  lemma SlicesOfAppend(a: string, m: string, b: string, i: nat)
    requires i <= |a|
    ensures a + m + b == a + (m + b)
    ensures (a + m + b)[..i] == a[..i] && (a + m + b)[i..] == a[i..] + m + b
  {
    assert a + m + b == a + (m + b);
    assert (a + (m + b))[i..] == a[i..] + (m + b);
  }

  /** A separator run at the front only adds an empty first piece, which
      cleaning drops. */
  lemma SplitSkipLead(b: string)
    ensures Clean(SplitRuns(SkipSeps(b))) == Clean(SplitRuns(b))
  {
    if b != [] && IsSep(b[0]) {
      assert FirstSep(b) == 0;
      assert b[..0] == "" && b[0..] == b;
      assert SplitRuns(b) == [""] + SplitRuns(SkipSeps(b));
      CleanAppend([""], SplitRuns(SkipSeps(b)));
      CleanEmptyPiece();
    }
  }

  lemma {:induction false} SkipSepsAppend(u: string, c: char, b: string)
    requires IsSep(c)
    ensures SkipSeps(u + [c] + b) == if SkipSeps(u) == [] then SkipSeps(b) else SkipSeps(u) + [c] + b
    decreases |u|
  {
    var s := u + [c] + b;
    if u == [] {
      assert s[0] == c && s[1..] == b;
      assert SkipSeps(s) == SkipSeps(b);
    } else if IsSep(u[0]) {
      assert s[0] == u[0] && s[1..] == u[1..] + [c] + b;
      assert SkipSeps(s) == SkipSeps(u[1..] + [c] + b);
      assert SkipSeps(u) == SkipSeps(u[1..]);
      SkipSepsAppend(u[1..], c, b);
    } else {
      assert s[0] == u[0];
    }
  }

  lemma {:induction false} FirstSepPrefix(a: string, t: string)
    requires FirstSep(a) < |a|
    ensures FirstSep(a + t) == FirstSep(a)
    decreases |a|
  {
    if !IsSep(a[0]) {
      assert (a + t)[1..] == a[1..] + t;
      FirstSepPrefix(a[1..], t);
    }
  }

  /** A keyword list written one per line reads back as itself, provided
      each keyword is truthy, already trimmed and free of separators. */
  lemma {:induction false} ParseJoined(ks: seq<string>)
    requires forall k :: 0 <= k < |ks| ==> IsKeyword(ks[k])
    ensures ParseKeywords(Join(ks, "\n")) == ks
  {
    if ks == [] {
      EmptyFormYieldsNothing();
    } else {
      var pieces := SplitRuns(Join(ks, "\n"));
      SplitJoined(ks);
      assert pieces == ks;
      TrimAllTrimmed(ks);
      KeepAllTruthy(ks);
    }
  }

  lemma TrimAllTrimmed(xs: seq<string>)
    requires forall k :: 0 <= k < |xs| ==> NoSep(xs[k]) && Trim(xs[k]) == xs[k]
    ensures TrimAll(xs) == xs
  {
  }

  /** An empty form yields no keyword: its single empty piece is falsy. */
  lemma EmptyFormYieldsNothing()
    ensures ParseKeywords("") == []
  {
    var pieces := SplitRuns("");
    assert pieces == [""] by { assert FirstSep("") == 0; }
    assert Trim("") == "" by { TrimOfPadded("", "", ""); }
    var trimmed := TrimAll(pieces);
    assert trimmed == [""];
    assert !IsTruthy(trimmed[0]);
  }

  lemma {:induction false} KeepAllTruthy(xs: seq<string>)
    requires forall k :: 0 <= k < |xs| ==> IsTruthy(xs[k]) && NoSep(xs[k])
    ensures KeepTruthy(xs) == xs
    decreases |xs|
  {
    if xs != [] {
      KeepAllTruthy(xs[1..]);
      assert [xs[0]] + xs[1..] == xs;
    }
  }

  /** Splitting undoes joining with a line feed for non-empty, separator-free
      pieces. */
  lemma {:induction false} SplitJoined(ks: seq<string>)
    requires |ks| >= 1
    requires forall k :: 0 <= k < |ks| ==> ks[k] != "" && NoSep(ks[k])
    ensures SplitRuns(Join(ks, "\n")) == ks
    decreases |ks|
  {
    var s := Join(ks, "\n");
    var x := ks[0];
    if |ks| == 1 {
      assert FirstSep(s) == |s| by { FirstSepOf(x, ""); assert x + "" == x; }
    } else {
      var tail := Join(ks[1..], "\n");
      Assoc(x, "\n", tail);
      JoinStart(ks[1..]);
      JoinedStep(x, tail);
      SplitJoined(ks[1..]);
      ListCons(ks);
    }
  }

  /** A piece, a line feed, then text starting with a non-separator: the
      piece comes first and the text supplies the rest. */
  lemma JoinedStep(x: string, tail: string)
    requires NoSep(x) && tail != [] && !IsSep(tail[0])
    ensures SplitRuns(x + ("\n" + tail)) == [x] + SplitRuns(tail)
  {
    var s := x + ("\n" + tail);
    PrefixThen(x, "\n" + tail);
    FirstSepOf(x, "\n" + tail);
    SplitAtFirst(s, |x|);
    assert ("\n" + tail)[1..] == tail;
    assert SkipSeps(tail) == tail;
  }

  lemma JoinStart(ks: seq<string>)
    requires |ks| >= 1 && ks[0] != "" && NoSep(ks[0])
    ensures Join(ks, "\n") != [] && Join(ks, "\n")[0] == ks[0][0]
  {
  }

  lemma {:induction false} FirstSepOf(x: string, t: string)
    requires NoSep(x)
    requires t == [] || IsSep(t[0])
    ensures FirstSep(x + t) == |x|
    decreases |x|
  {
    if x == [] {
      assert x + t == t;
    } else {
      assert (x + t)[1..] == x[1..] + t;
      FirstSepOf(x[1..], t);
    }
  }

  const CountSuffix := " keywords have been added to the queue for processing."

  /** The success message: the number of parsed keywords in decimal, as PHP
      prints it (no leading zero), then the fixed sentence. */
  function CountMessage(keywords: seq<string>): (m: string)
    ensures exists d :: Canonical(d) && DigitsValue(d) == |keywords| && m == d + CountSuffix
  {
    NatToStringRoundTrip(|keywords|);
    NatToString(|keywords|) + CountSuffix
  }

  /** Two keyword lists of the same length get the same message, and lists
      of different lengths get different ones. */
  lemma CountMessageExact(a: seq<string>, b: seq<string>)
    ensures CountMessage(a) == CountMessage(b) <==> |a| == |b|
  {
    var m, n := CountMessage(a), CountMessage(b);
    var d :| Canonical(d) && DigitsValue(d) == |a| && m == d + CountSuffix;
    var e :| Canonical(e) && DigitsValue(e) == |b| && n == e + CountSuffix;
    if m == n {
      assert |d| == |e|;
      assert d == m[..|d|] && e == n[..|e|];
    }
    if |a| == |b| {
      CanonicalUnique(d, e);
    }
  }

  /** Submitting the form: the keywords handed on for generation are the
      parsed ones, and the message counts them. Generation itself is not
      modelled; the count is that of the parsed list whatever generation does. */
  function Submit(text: string): (r: (seq<string>, string))
    ensures r.0 == ParseKeywords(text)
    ensures r.1 == CountMessage(r.0)
    ensures forall k :: 0 <= k < |r.0| ==> IsTruthy(r.0[k])
  {
    var keywords := ParseKeywords(text);
    (keywords, CountMessage(keywords))
  }

  /** Submitting keywords written one per line hands on exactly those
      keywords and reports their number. */
  lemma SubmitJoined(ks: seq<string>)
    requires forall k :: 0 <= k < |ks| ==> IsKeyword(ks[k])
    ensures Submit(Join(ks, "\n")).0 == ks
    ensures exists d :: Canonical(d) && DigitsValue(d) == |ks| && Submit(Join(ks, "\n")).1 == d + CountSuffix
  {
    ParseJoined(ks);
  }
}
