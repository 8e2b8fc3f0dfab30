/** `CDirFmt::format`: cut the directory to size and trim it, split it at the first occurrence
    of each rule's name, and print the pieces against a column budget.

    Each step has a specification function (`Prepared`, `Segment`, `Render`, `Formatted`) with
    its properties proved as lemmas, and a method with the loops of the program proved to
    compute it. Standard output is the returned string. */
module Formatter {
  import opened Text
  import opened Records
  import opened Escapes

  //-------------------------------------------------------------------------------------------
  // Cutting and trimming the directory

  /** The directory cut to at most `MAX_DIR` characters. */
  function Clamped(dir: string): (d: string)
    ensures |d| <= MAX_DIR && |d| <= |dir| && d == dir[..|d|]
    ensures |dir| <= MAX_DIR ==> d == dir
    ensures |dir| > MAX_DIR ==> |d| == MAX_DIR
  {
    if |dir| > MAX_DIR then dir[..MAX_DIR] else dir
  }

  /** The length of `s[..n]` once its trailing whitespace is dropped. */
  function TrimLen(s: string, n: nat): (r: nat)
    requires n <= |s|
    ensures r <= n
    ensures r > 0 ==> !IsSpace(s[r - 1])
    ensures forall m :: r <= m < n ==> IsSpace(s[m])
    decreases n
  {
    if n > 0 && IsSpace(s[n - 1]) then TrimLen(s, n - 1) else n
  }

  /** The trimmed length is the only length with those properties. */
  lemma TrimLenUnique(s: string, n: nat, r: nat)
    requires r <= n <= |s|
    requires r > 0 ==> !IsSpace(s[r - 1])
    requires forall m :: r <= m < n ==> IsSpace(s[m])
    ensures TrimLen(s, n) == r
  {
  }

  /** `s` without trailing whitespace. */
  function Trimmed(s: string): string
  {
    s[..TrimLen(s, |s|)]
  }

  /** Trimming twice trims nothing more. */
  lemma TrimmedIdempotent(s: string)
    ensures Trimmed(Trimmed(s)) == Trimmed(s)
  {
    var t := Trimmed(s);
    var r := |t|;
    assert r > 0 ==> t[r - 1] == s[r - 1];
    TrimLenUnique(t, r, r);
  }

  /** The directory `format` works on: at most `MAX_DIR` characters, then trailing whitespace
      removed. */
  function Prepared(dir: string): string
  {
    Trimmed(Clamped(dir))
  }

  /** The prepared directory is a prefix of the input, no longer than `MAX_DIR`, not ending in
      whitespace, and what was cut between it and the `MAX_DIR` limit is whitespace. */
  lemma PreparedShape(dir: string)
    ensures var d := Prepared(dir);
            |d| <= MAX_DIR && d == dir[..|d|] && (d != [] ==> !IsSpace(d[|d| - 1])) &&
            forall m :: |d| <= m < |Clamped(dir)| ==> IsSpace(dir[m])
  {
    var c := Clamped(dir);
    var r := TrimLen(c, |c|);
    var d := Prepared(dir);
    assert d == c[..r];
    assert d == dir[..r] by {
      assert c == dir[..|c|];
      SliceOfSlice(dir, 0, |c|, 0, r);
    }
    forall m | r <= m < |c|
      ensures IsSpace(dir[m])
    {
      assert c[m] == dir[m];
    }
    if r > 0 {
      assert d[r - 1] == c[r - 1];
    }
  }

  /** Preparing a prepared directory changes nothing. */
  lemma PreparedIdempotent(dir: string)
    ensures Prepared(Prepared(dir)) == Prepared(dir)
  {
    var d := Prepared(dir);
    PreparedShape(dir);
    assert Clamped(d) == d;
    TrimmedIdempotent(Clamped(dir));
  }

  /** The first two steps of `format`: cut to `MAX_DIR`, then drop trailing whitespace. */
  method Prepare(dir: string) returns (directory: string)
    ensures directory == Prepared(dir)
  {
    directory := dir;
    var len := |directory|;
    if len > MAX_DIR {
      directory := directory[..MAX_DIR];
      len := MAX_DIR;
    }
    assert directory == Clamped(dir) && len == |directory|;
    if len > 0 && IsSpace(directory[len - 1]) {
      while len > 0 && IsSpace(directory[len - 1])
        invariant len <= |directory|
        invariant TrimLen(directory, len) == TrimLen(directory, |directory|)
      {
        len := len - 1;
      }
      assert TrimLen(directory, len) == len;
      directory := directory[..len];
    } else {
      assert directory[..|directory|] == directory;
    }
  }

  //-------------------------------------------------------------------------------------------
  // Splitting the directory at the rules

  /** A matched rule and the text before its name. */
  datatype Cut = Cut(before: string, rule: Format)

  /** The matched rules in order and what is left after the last one. */
  datatype Segmentation = Segmentation(cuts: seq<Cut>, rest: string)

  /** The rules in order, each looked up once at its first occurrence in what the earlier
      rules left; a rule whose name does not occur is skipped. */
  function Segment(fs: seq<Format>, d: string): Segmentation
    decreases |fs|
  {
    if fs == [] then Segmentation([], d)
    else
      match Find(d, fs[0].name)
      case None => Segment(fs[1..], d)
      case Some(p) =>
        var s := Segment(fs[1..], d[p + |fs[0].name|..]);
        Segmentation([Cut(d[..p], fs[0])] + s.cuts, s.rest)
  }

  /** The directory a segmentation came from: each cut's text and rule name, then the rest. */
  function Unsegment(cuts: seq<Cut>, rest: string): string
  {
    if cuts == [] then rest else cuts[0].before + (cuts[0].rule.name + Unsegment(cuts[1..], rest))
  }

  /** `d` around an occurrence of `pat` at `p`; `q` is the position after it. */
  lemma AroundOccurrence(d: string, pat: string, p: nat, q: nat)
    requires OccursAt(d, pat, p) && q == p + |pat|
    ensures d == d[..p] + (pat + d[q..])
  {
    assert d[..p] + (d[p..q] + d[q..]) == d;
  }

  /** One matched rule: the cut before it and the segmentation of what follows. */
  lemma {:induction false} SegmentMatch(fs: seq<Format>, d: string, p: nat, q: nat)
    requires fs != [] && Find(d, fs[0].name) == Some(p) && q == p + |fs[0].name|
    ensures q <= |d|
    ensures Segment(fs, d) == Segmentation([Cut(d[..p], fs[0])] + Segment(fs[1..], d[q..]).cuts,
                                           Segment(fs[1..], d[q..]).rest)
  {
    assert q <= |d| by {
      assert OccursAt(d, fs[0].name, p);
    }
    var s := Segment(fs[1..], d[q..]);
    assert Segment(fs, d) == Segmentation([Cut(d[..p], fs[0])] + s.cuts, s.rest);
  }

  /** Putting the rule names back in place of the cuts gives the directory again. */
  lemma {:induction false} SegmentRoundTrip(fs: seq<Format>, d: string)
    ensures Unsegment(Segment(fs, d).cuts, Segment(fs, d).rest) == d
    decreases |fs|
  {
    if fs != [] {
      var name := fs[0].name;
      match Find(d, name)
      case None =>
        SegmentRoundTrip(fs[1..], d);
      case Some(p) =>
        var q := p + |name|;
        SegmentMatch(fs, d, p, q);
        SegmentRoundTrip(fs[1..], d[q..]);
        var s := Segment(fs[1..], d[q..]);
        var cuts := [Cut(d[..p], fs[0])] + s.cuts;
        assert cuts[0] == Cut(d[..p], fs[0]) && cuts[1..] == s.cuts;
        AroundOccurrence(d, name, p, q);
    }
  }

  /** The text before a cut holds no earlier occurrence of the rule's name. */
  predicate FirstMatch(c: Cut)
  {
    forall q :: 0 <= q < |c.before| ==> !OccursAt(c.before + c.rule.name, c.rule.name, q)
  }

  /** An occurrence inside `d[..e]` is an occurrence inside `d`. */
  lemma OccursInPrefix(d: string, pat: string, e: nat, q: nat)
    requires e <= |d| && q + |pat| <= e
    ensures OccursAt(d[..e], pat, q) <==> OccursAt(d, pat, q)
  {
    assert d[..e][q..q + |pat|] == d[q..q + |pat|];
  }

  /** The first match found by `Find` is a `FirstMatch` cut. */
  lemma FindFirstMatch(d: string, f: Format, p: nat, q: nat)
    requires Find(d, f.name) == Some(p) && q == p + |f.name|
    ensures FirstMatch(Cut(d[..p], f))
  {
    var u := d[..p] + f.name;
    assert u == d[..q];
    forall x | 0 <= x < p
      ensures !OccursAt(u, f.name, x)
    {
      OccursInPrefix(d, f.name, q, x);
    }
  }

  /** Every rule is applied at the first occurrence of its name in what is left. */
  lemma {:induction false} SegmentFirstMatches(fs: seq<Format>, d: string)
    ensures forall i :: 0 <= i < |Segment(fs, d).cuts| ==> FirstMatch(Segment(fs, d).cuts[i])
    decreases |fs|
  {
    if fs != [] {
      match Find(d, fs[0].name)
      case None =>
        SegmentFirstMatches(fs[1..], d);
      case Some(p) =>
        var q := p + |fs[0].name|;
        SegmentMatch(fs, d, p, q);
        SegmentFirstMatches(fs[1..], d[q..]);
        FindFirstMatch(d, fs[0], p, q);
    }
  }

  /** `xs` is `ys` with some elements left out, the rest kept in order. */
  predicate IsSubsequence<T(==)>(xs: seq<T>, ys: seq<T>)
    decreases |ys|
  {
    if xs == [] then true
    else if ys == [] then false
    else (xs[0] == ys[0] && IsSubsequence(xs[1..], ys[1..])) || IsSubsequence(xs, ys[1..])
  }

  function RulesOfCuts(cuts: seq<Cut>): (rs: seq<Format>)
    ensures |rs| == |cuts| && forall i :: 0 <= i < |cuts| ==> rs[i] == cuts[i].rule
  {
    if cuts == [] then [] else [cuts[0].rule] + RulesOfCuts(cuts[1..])
  }

  /** The matched rules are rules of the list, each used at most once and in list order. */
  lemma {:induction false} SegmentInOrder(fs: seq<Format>, d: string)
    ensures IsSubsequence(RulesOfCuts(Segment(fs, d).cuts), fs)
    decreases |fs|
  {
    if fs != [] {
      match Find(d, fs[0].name)
      case None =>
        SegmentInOrder(fs[1..], d);
        var rs := RulesOfCuts(Segment(fs[1..], d).cuts);
        assert rs != [] ==> IsSubsequence(rs, fs[1..]);
      case Some(p) =>
        var q := p + |fs[0].name|;
        SegmentMatch(fs, d, p, q);
        SegmentInOrder(fs[1..], d[q..]);
        var cuts := Segment(fs, d).cuts;
        assert cuts[1..] == Segment(fs[1..], d[q..]).cuts;
        assert RulesOfCuts(cuts) == [fs[0]] + RulesOfCuts(cuts[1..]);
    }
  }

  /** Segmenting with the first `k` rules and then with the others, from what the first `k`
      left, is segmenting with all of them. */
  lemma {:induction false} SegmentSplit(fs: seq<Format>, d: string, k: nat)
    requires k <= |fs|
    ensures Segment(fs, d) == Join(Segment(fs[..k], d).cuts, Segment(fs[k..], Segment(fs[..k], d).rest))
    decreases k, 2
  {
    if k == 0 {
      assert fs[..0] == [] && fs[0..] == fs;
      assert [] + Segment(fs, d).cuts == Segment(fs, d).cuts;
    } else {
      match Find(d, fs[0].name)
      case None => SegmentSplitSkip(fs, d, k, k - 1);
      case Some(p) => SegmentSplitTake(fs, d, k, k - 1, p, p + |fs[0].name|);
    }
  }

  /** `SegmentSplit` when the first rule does not match. */
  lemma {:induction false} SegmentSplitSkip(fs: seq<Format>, d: string, k: nat, j: nat)
    requires 0 < k <= |fs| && j == k - 1 && Find(d, fs[0].name).None?
    ensures Segment(fs, d) == Join(Segment(fs[..k], d).cuts, Segment(fs[k..], Segment(fs[..k], d).rest))
    decreases k, 0
  {
    var gs, tail := fs[..k], fs[1..];
    assert gs[0] == fs[0] && gs[1..] == tail[..j] && fs[k..] == tail[j..];
    assert Segment(fs, d) == Segment(tail, d);
    assert Segment(gs, d) == Segment(tail[..j], d);
    SegmentSplit(tail, d, j);
  }

  /** `SegmentSplit` when the first rule matches at `p`, its name ending at `q`. */
  lemma {:induction false} SegmentSplitTake(fs: seq<Format>, d: string, k: nat, j: nat, p: nat, q: nat)
    requires 0 < k <= |fs| && j == k - 1 && Find(d, fs[0].name) == Some(p) && q == p + |fs[0].name|
    ensures Segment(fs, d) == Join(Segment(fs[..k], d).cuts, Segment(fs[k..], Segment(fs[..k], d).rest))
    decreases k, 0
  {
    var gs, tail := fs[..k], fs[1..];
    assert gs[0] == fs[0] && gs[1..] == tail[..j] && fs[k..] == tail[j..];
    SegmentMatch(fs, d, p, q);
    SegmentMatch(gs, d, p, q);
    SegmentSplit(tail, d[q..], j);
    var b := Segment(tail[..j], d[q..]);
    var c := Segment(fs[k..], b.rest);
    var cut := Cut(d[..p], fs[0]);
    assert [cut] + (b.cuts + c.cuts) == ([cut] + b.cuts) + c.cuts;
  }

  /** Rule `k` is applied exactly when its name occurs in what the rules before it left: then
      it adds one cut, at the first occurrence, and leaves what follows the name; otherwise the
      segmentation is unchanged. */
  lemma {:induction false} SegmentApplies(fs: seq<Format>, d: string, k: nat, k1: nat)
    requires k < |fs| && k1 == k + 1
    ensures var before, r := Segment(fs[..k], d), Segment(fs[..k], d).rest;
            match Find(r, fs[k].name)
            case Some(p) =>
              Segment(fs[..k1], d) == Segmentation(before.cuts + [Cut(r[..p], fs[k])], r[p + |fs[k].name|..])
            case None =>
              Segment(fs[..k1], d) == before
    ensures Find(Segment(fs[..k], d).rest, fs[k].name).Some? <==>
            |Segment(fs[..k1], d).cuts| == |Segment(fs[..k], d).cuts| + 1
  {
    var gs := fs[..k1];
    var before := Segment(fs[..k], d);
    var r := before.rest;
    assert gs[..k] == fs[..k] && gs[k..] == [fs[k]];
    SegmentSplit(gs, d, k);
    var hs := [fs[k]];
    assert hs[1..] == [];
    match Find(r, fs[k].name)
    case Some(p) =>
      var q := p + |fs[k].name|;
      SegmentMatch(hs, r, p, q);
    case None =>
      assert before.cuts + [] == before.cuts;
  }

  /** A rule with an empty name always matches, at the very start, and takes nothing away. */
  lemma EmptyNameMatchesFirst(f: Format, fs: seq<Format>, d: string)
    requires f.name == ""
    ensures Segment([f] + fs, d) == Segmentation([Cut("", f)] + Segment(fs, d).cuts, Segment(fs, d).rest)
  {
    FindEmpty(d);
    var gs := [f] + fs;
    assert gs[0] == f && gs[1..] == fs;
    SegmentMatch(gs, d, 0, 0);
    assert d[0..] == d;
  }

  //-------------------------------------------------------------------------------------------
  // The parts

  /** The escape of each cut's foreground colour. */
  function FgColors(cuts: seq<Cut>, t: Terminal, prompt: bool): (cs: seq<string>)
    ensures |cs| == |cuts|
  {
    if cuts == [] then [] else [ColorEscape(t, cuts[0].rule.fg, prompt)] + FgColors(cuts[1..], t, prompt)
  }

  lemma {:induction false} FgColorsAt(cuts: seq<Cut>, i: nat, t: Terminal, prompt: bool)
    requires i < |cuts|
    ensures FgColors(cuts, t, prompt)[i] == ColorEscape(t, cuts[i].rule.fg, prompt)
    decreases i
  {
    if i > 0 {
      var j := i - 1;
      FgColorsAt(cuts[1..], j, t, prompt);
      assert cuts[1..][j] == cuts[i];
    }
  }

  lemma {:induction false} FgColorsSnoc(cuts: seq<Cut>, c: Cut, t: Terminal, prompt: bool)
    ensures FgColors(cuts + [c], t, prompt) == FgColors(cuts, t, prompt) + [ColorEscape(t, c.rule.fg, prompt)]
    decreases |cuts|
  {
    if cuts == [] {
      assert [] + [c] == [c];
    } else {
      assert (cuts + [c])[1..] == cuts[1..] + [c];
      FgColorsSnoc(cuts[1..], c, t, prompt);
    }
  }

  /** The two parts of each cut: the text before it in the prompt colour, then the rule's value
      in its colour from `colors`. */
  function CutParts(cuts: seq<Cut>, promptStr: string, colors: seq<string>): seq<Part>
    requires |colors| == |cuts|
  {
    if cuts == [] then []
    else [Part(cuts[0].before, promptStr), Part(cuts[0].rule.value, colors[0])]
         + CutParts(cuts[1..], promptStr, colors[1..])
  }

  /** The parts of a segmentation: those of its cuts, each value in its rule's foreground
      colour, then the rest in the prompt colour. */
  function PartsOf(s: Segmentation, promptStr: string, t: Terminal, prompt: bool): seq<Part>
  {
    CutParts(s.cuts, promptStr, FgColors(s.cuts, t, prompt)) + [Part(s.rest, promptStr)]
  }

  lemma {:induction false} CutPartsLength(cuts: seq<Cut>, promptStr: string, colors: seq<string>)
    requires |colors| == |cuts|
    ensures |CutParts(cuts, promptStr, colors)| == 2 * |cuts|
  {
    if cuts != [] {
      CutPartsLength(cuts[1..], promptStr, colors[1..]);
    }
  }

  /** Parts `m` and `m + 1`, for `m == 2 * i`, come from cut `i`: the text before it and the
      rule's value. */
  lemma {:induction false} CutPartsAt(cuts: seq<Cut>, colors: seq<string>, i: nat, m: nat, promptStr: string)
    requires |colors| == |cuts| && i < |cuts| && m == 2 * i
    ensures |CutParts(cuts, promptStr, colors)| == 2 * |cuts|
    ensures CutParts(cuts, promptStr, colors)[m] == Part(cuts[i].before, promptStr)
    ensures CutParts(cuts, promptStr, colors)[m + 1] == Part(cuts[i].rule.value, colors[i])
    decreases i
  {
    CutPartsLength(cuts, promptStr, colors);
    if i > 0 {
      var tail, rest := cuts[1..], colors[1..];
      var j, n := i - 1, m - 2;
      CutPartsAt(tail, rest, j, n, promptStr);
      assert tail[j] == cuts[i] && rest[j] == colors[i];
    }
  }

  /** Parts alternate: text before a match in the prompt colour, the match's value in its
      rule's foreground colour (`FgColorsAt` says which escape that is), ..., and the rest last
      in the prompt colour. */
  lemma PartsShape(s: Segmentation, promptStr: string, t: Terminal, prompt: bool)
    ensures var ps := PartsOf(s, promptStr, t, prompt);
            |ps| == 2 * |s.cuts| + 1 && ps[2 * |s.cuts|] == Part(s.rest, promptStr) &&
            forall i :: 0 <= i < |s.cuts| ==>
              ps[2 * i] == Part(s.cuts[i].before, promptStr) &&
              ps[2 * i + 1] == Part(s.cuts[i].rule.value, FgColors(s.cuts, t, prompt)[i])
  {
    var colors := FgColors(s.cuts, t, prompt);
    var cs := CutParts(s.cuts, promptStr, colors);
    CutPartsLength(s.cuts, promptStr, colors);
    forall i | 0 <= i < |s.cuts|
      ensures PartsOf(s, promptStr, t, prompt)[2 * i] == Part(s.cuts[i].before, promptStr)
      ensures PartsOf(s, promptStr, t, prompt)[2 * i + 1] == Part(s.cuts[i].rule.value, colors[i])
    {
      var m := 2 * i;
      CutPartsAt(s.cuts, colors, i, m, promptStr);
      assert PartsOf(s, promptStr, t, prompt)[m + 1] == cs[m + 1];
    }
  }

  lemma {:induction false} CutPartsSnoc(cuts: seq<Cut>, colors: seq<string>, c: Cut, color: string, promptStr: string)
    requires |colors| == |cuts|
    ensures CutParts(cuts + [c], promptStr, colors + [color]) ==
            CutParts(cuts, promptStr, colors) + [Part(c.before, promptStr), Part(c.rule.value, color)]
    decreases |cuts|
  {
    if cuts == [] {
      assert [] + [c] == [c] && [] + [color] == [color];
    } else {
      assert (cuts + [c])[1..] == cuts[1..] + [c] && (colors + [color])[1..] == colors[1..] + [color];
      CutPartsSnoc(cuts[1..], colors[1..], c, color, promptStr);
    }
  }

  /** The background sequence `format` remembers: that of the last matched rule's fill, even
      an empty one, or nothing when no rule matched. A later matched rule without a fill thus
      clears the fill of an earlier one. */
  function FillOf(cuts: seq<Cut>, t: Terminal, prompt: bool): (r: string)
    ensures r != [] <==> cuts != [] && cuts[|cuts| - 1].rule.fill != [] && t.term == "xterm"
                         && !TcshPrompt(t, prompt)
    ensures r != [] ==> r == Osc11(cuts[|cuts| - 1].rule.fill)
  {
    if cuts == [] then [] else FillEscape(t, cuts[|cuts| - 1].rule.fill, prompt)
  }

  /** Rule `k` does not occur in `d`: the segmentation from `k` is that from `k + 1`. */
  lemma SegmentSkip(fs: seq<Format>, k: nat, k1: nat, d: string)
    requires k < |fs| && k1 == k + 1 && Find(d, fs[k].name).None?
    ensures Segment(fs[k..], d) == Segment(fs[k1..], d)
  {
    assert fs[k..][0] == fs[k] && fs[k..][1..] == fs[k1..];
  }

  /** The cuts already made in front of a segmentation still to come. */
  function Join(done: seq<Cut>, s: Segmentation): Segmentation
  {
    Segmentation(done + s.cuts, s.rest)
  }

  /** Moving one cut from the segmentation to come to the cuts already made. */
  lemma JoinCons(done: seq<Cut>, c: Cut, s: Segmentation)
    ensures Join(done, Segmentation([c] + s.cuts, s.rest)) == Join(done + [c], s)
  {
    assert done + ([c] + s.cuts) == (done + [c]) + s.cuts;
  }

  /** Rule `k` occurs in `d` at `p`, ending at `q`: one more cut, and the segmentation of the
      rest from `k + 1`. */
  lemma SegmentTake(fs: seq<Format>, k: nat, k1: nat, d: string, p: nat, q: nat)
    requires k < |fs| && k1 == k + 1 && Find(d, fs[k].name) == Some(p) && q == p + |fs[k].name|
    ensures q <= |d|
    ensures Segment(fs[k..], d) == Segmentation([Cut(d[..p], fs[k])] + Segment(fs[k1..], d[q..]).cuts,
                                                 Segment(fs[k1..], d[q..]).rest)
  {
    var gs := fs[k..];
    assert gs[0] == fs[k] && gs[1..] == fs[k1..];
    SegmentMatch(gs, d, p, q);
  }

  /** The rule loop of `format`: build the parts and remember the last fill sequence. */
  method SegmentDir(fs: seq<Format>, d: string, promptStr: string, t: Terminal, prompt: bool)
    returns (parts: seq<Part>, fillStr: string)
    ensures parts == PartsOf(Segment(fs, d), promptStr, t, prompt)
    ensures fillStr == FillOf(Segment(fs, d).cuts, t, prompt)
  {
    var directory := d;
    parts, fillStr := [], "";
    ghost var done: seq<Cut> := [];
    assert fs[0..] == fs && Join([], Segment(fs, d)) == Segment(fs, d);
    for k := 0 to |fs|
      invariant Segment(fs, d) == Join(done, Segment(fs[k..], directory))
      invariant parts == CutParts(done, promptStr, FgColors(done, t, prompt))
      invariant fillStr == FillOf(done, t, prompt)
    {
      var format := fs[k];
      var p := Find(directory, format.name);
      if p.None? {
        SegmentSkip(fs, k, k + 1, directory);
        continue;
      }
      var q := p.value + |format.name|;
      SegmentTake(fs, k, k + 1, directory, p.value, q);
      var c := Cut(directory[..p.value], format);
      JoinCons(done, c, Segment(fs[k + 1..], directory[q..]));
      parts := parts + [Part(directory[..p.value], promptStr)];
      directory := directory[q..];
      var colorStr := ColorEscape(t, format.fg, prompt);
      FgColorsSnoc(done, c, t, prompt);
      CutPartsSnoc(done, FgColors(done, t, prompt), c, colorStr, promptStr);
      fillStr := FillEscape(t, format.fill, prompt);
      parts := parts + [Part(format.value, colorStr)];
      done := done + [c];
    }
    assert done + [] == done;
    parts := parts + [Part(directory, promptStr)];
  }

  //-------------------------------------------------------------------------------------------
  // Printing against the column budget

  /** `s.substr(0, n)` for the `int` width `n`. A negative `n` converts to a `size_type` of at
      least 2^64 - 2^31, more than any string holds, so the whole string is kept. */
  function Clip(s: string, n: int): (r: string)
    ensures |r| <= |s| && r == s[..|r|]
    ensures 0 <= n <= |s| ==> |r| == n
    ensures n < 0 || n >= |s| ==> r == s
  {
    if n < 0 || n >= |s| then s else s[..n]
  }

  /** A part as printed: its colour and the normal colour around its text when it has one. */
  function ShowPart(p: Part, text: string, norm: string): string
  {
    if p.color != "" then p.color + text + norm else text
  }

  /** A part without colour is its text alone; a coloured one is its colour, its text and the
      normal colour, in that order. */
  lemma ShowPartText(p: Part, text: string, norm: string)
    ensures var r := ShowPart(p, text, norm);
            if p.color == "" then r == text
            else |r| == |p.color| + |text| + |norm| && r[..|p.color|] == p.color
                 && r[|p.color|..|p.color| + |text|] == text && r[|p.color| + |text|..] == norm
  {
    if p.color != "" {
      var r := ShowPart(p, text, norm);
      assert r == p.color + text + norm;
      assert r[|p.color|..|p.color| + |text|] == text;
    }
  }

  /** Every part printed in full. */
  function ShowAll(ps: seq<Part>, norm: string): string
  {
    if ps == [] then [] else ShowPart(ps[0], ps[0].str, norm) + ShowAll(ps[1..], norm)
  }

  /** The columns the texts of `ps` take. */
  function Width(ps: seq<Part>): nat
  {
    if ps == [] then 0 else |ps[0].str| + Width(ps[1..])
  }

  /** What the printing loop writes, and whether it asks for the line break. */
  datatype Rendering = Rendering(out: string, newline: bool)

  /** The printing loop from a column count `len1` on, with break length `b`. A part that
      reaches `b` is cut to the remaining width less three and followed by "..." when
      truncating, which ends the loop; when splitting it is printed whole and the line break
      is asked for. */
  function Render(ps: seq<Part>, len1: int, b: int, split: bool, norm: string): Rendering
    decreases |ps|
  {
    if ps == [] then Rendering("", false)
    else
      var p := ps[0];
      var len2 := len1 + |p.str|;
      if len2 >= b && !split then
        Rendering(ShowPart(p, Clip(p.str, b - len1 - 3) + "...", norm), false)
      else
        var r := Render(ps[1..], len2, b, split, norm);
        Rendering(ShowPart(p, p.str, norm) + r.out, r.newline || len2 >= b)
  }

  /** Where truncation happens: the first part at which the column count reaches the break
      length, and the column count before that part. */
  datatype Cutoff = Cutoff(index: nat, column: int)

  /** The cutoff of `ps` when `len1` columns are already taken, if any part reaches `b`. */
  function Overflow(ps: seq<Part>, len1: int, b: int): (r: Option<Cutoff>)
    ensures r.Some? ==> r.value.index < |ps|
    decreases |ps|
  {
    if ps == [] then None
    else if len1 + |ps[0].str| >= b then Some(Cutoff(0, len1))
    else match Overflow(ps[1..], len1 + |ps[0].str|, b)
      case None => None
      case Some(c) => Some(Cutoff(c.index + 1, c.column))
  }

  /** The width of the first `k + 1` parts is the first part's and that of the next `k`. */
  lemma WidthCons(ps: seq<Part>, k: nat, k1: nat)
    requires k1 == k + 1 && k1 <= |ps|
    ensures Width(ps[..k1]) == |ps[0].str| + Width(ps[1..][..k])
  {
    assert ps[..k1][0] == ps[0] && ps[..k1][1..] == ps[1..][..k];
  }

  /** The first `k + 1` parts print as the first part and then the next `k`. */
  lemma ShowAllCons(ps: seq<Part>, k: nat, k1: nat, norm: string)
    requires k1 == k + 1 && k1 <= |ps|
    ensures ShowAll(ps[..k1], norm) == ShowPart(ps[0], ps[0].str, norm) + ShowAll(ps[1..][..k], norm)
  {
    assert ps[..k1][0] == ps[0] && ps[..k1][1..] == ps[1..][..k];
  }

  /** `Overflow` finds the first part at which the running width reaches `b` and the width
      before it: up to every earlier part the width stays below `b`, with the part found it
      reaches `b`. With no such part the whole width stays below `b`. */
  lemma {:induction false} OverflowIsFirst(ps: seq<Part>, len1: int, b: int)
    ensures var r := Overflow(ps, len1, b);
            (r.None? ==> ps == [] || len1 + Width(ps) < b) &&
            (r.Some? ==> r.value.column == len1 + Width(ps[..r.value.index]) &&
                         r.value.column + |ps[r.value.index].str| >= b &&
                         forall j :: 0 <= j < r.value.index ==> len1 + Width(ps[..j]) + |ps[j].str| < b)
    decreases |ps|
  {
    if ps != [] {
      var len2 := len1 + |ps[0].str|;
      var tail := ps[1..];
      assert ps[..0] == [];
      if len2 < b {
        OverflowIsFirst(tail, len2, b);
        match Overflow(tail, len2, b)
        case None =>
        case Some(c) =>
          var k, k1 := c.index, c.index + 1;
          WidthCons(ps, k, k1);
          assert ps[k1] == tail[k];
          forall j | 0 < j < k1
            ensures len1 + Width(ps[..j]) + |ps[j].str| < b
          {
            var i := j - 1;
            WidthCons(ps, i, j);
            assert ps[j] == tail[i];
          }
      }
    }
  }

  /** The text printed for the part that overflows, `w` columns being taken before it. */
  function Elided(p: Part, w: int, b: int, norm: string): string
  {
    ShowPart(p, Clip(p.str, b - w - 3) + "...", norm)
  }

  /** What truncating prints: every part when none reaches `b`, otherwise the parts before
      the first that does in full and that one elided. */
  function Truncated(ps: seq<Part>, len1: int, b: int, norm: string): string
  {
    match Overflow(ps, len1, b)
    case None => ShowAll(ps, norm)
    case Some(c) => ShowAll(ps[..c.index], norm) + Elided(ps[c.index], c.column, b, norm)
  }

  /** Truncation one part further on, when the first part fits. */
  lemma TruncatedCons(ps: seq<Part>, tail: seq<Part>, len1: int, len2: int, b: int, norm: string)
    requires ps != [] && tail == ps[1..] && len2 == len1 + |ps[0].str| && len2 < b
    ensures Truncated(ps, len1, b, norm) == ShowPart(ps[0], ps[0].str, norm) + Truncated(tail, len2, b, norm)
  {
    match Overflow(tail, len2, b)
    case None =>
    case Some(c) =>
      var k, k1 := c.index, c.index + 1;
      var head, front := ShowPart(ps[0], ps[0].str, norm), ShowAll(tail[..k], norm);
      var last := Elided(tail[k], c.column, b, norm);
      assert Truncated(ps, len1, b, norm) == (head + front) + last by {
        assert Overflow(ps, len1, b) == Some(Cutoff(k1, c.column));
        ShowAllCons(ps, k, k1, norm);
        assert ps[k1] == tail[k];
      }
      assert head + (front + last) == (head + front) + last;
  }

  /** Truncating: the parts before the first one to reach `b` are printed in full, that one
      is cut and followed by "...", and nothing after it; no line break is asked for. */
  lemma {:induction false} TruncateShape(ps: seq<Part>, len1: int, b: int, norm: string)
    ensures !Render(ps, len1, b, false, norm).newline
    ensures Render(ps, len1, b, false, norm).out == Truncated(ps, len1, b, norm)
    decreases |ps|
  {
    if ps != [] {
      var len2 := len1 + |ps[0].str|;
      if len2 < b {
        TruncateShape(ps[1..], len2, b, norm);
        TruncatedCons(ps, ps[1..], len1, len2, b, norm);
      }
    }
  }

  /** The line break is asked for only in split mode, and only when the parts reach the break
      length. */
  lemma {:induction false} RenderNewline(ps: seq<Part>, len1: int, b: int, split: bool, norm: string)
    ensures Render(ps, len1, b, split, norm).newline ==> split && len1 + Width(ps) >= b
    decreases |ps|
  {
    if ps != [] {
      var len2 := len1 + |ps[0].str|;
      if len2 < b || split {
        RenderNewline(ps[1..], len2, b, split, norm);
      }
    }
  }

  /** Splitting: every part is printed in full. */
  lemma {:induction false} SplitShowsAll(ps: seq<Part>, len1: int, b: int, norm: string)
    ensures Render(ps, len1, b, true, norm).out == ShowAll(ps, norm)
    decreases |ps|
  {
    if ps != [] {
      SplitShowsAll(ps[1..], len1 + |ps[0].str|, b, norm);
    }
  }

  /** Splitting: the line break is asked for exactly when the total width reaches `b`. */
  lemma {:induction false} SplitMarker(ps: seq<Part>, len1: int, b: int, norm: string)
    requires ps != []
    ensures Render(ps, len1, b, true, norm).newline <==> len1 + Width(ps) >= b
    decreases |ps|
  {
    var len2 := len1 + |ps[0].str|;
    if ps[1..] != [] {
      SplitMarker(ps[1..], len2, b, norm);
    }
  }

  /** Truncating where at least three columns remain before the overflowing part: the
      printed text, "..." included, is exactly `b` columns wide. */
  lemma TruncatedWidth(ps: seq<Part>, len1: int, b: int, c: Cutoff)
    requires Overflow(ps, len1, b) == Some(c)
    requires c.column + 3 <= b
    ensures c.column + |Clip(ps[c.index].str, b - c.column - 3) + "..."| == b
  {
    OverflowIsFirst(ps, len1, b);
  }

  /** Truncating where fewer than three columns remain: the overflowing part is printed whole
      before the "...", so the line runs past `b`. */
  lemma TruncatedWrap(ps: seq<Part>, len1: int, b: int, c: Cutoff)
    requires Overflow(ps, len1, b) == Some(c)
    requires b - 3 < c.column
    ensures Clip(ps[c.index].str, b - c.column - 3) == ps[c.index].str
    ensures c.column + |Clip(ps[c.index].str, b - c.column - 3) + "..."| >= b + 3
  {
    OverflowIsFirst(ps, len1, b);
  }

  /** The state of the printing loop before part `i`, at column `len1`: `whole` is what has
      been written, `out`, followed by the rendering of the remaining parts. */
  predicate Pending(whole: Rendering, ps: seq<Part>, i: nat, len1: int, b: int, split: bool, norm: string,
                    out: string, newline: bool)
    requires i <= |ps|
  {
    whole.out == out + Render(ps[i..], len1, b, split, norm).out &&
    whole.newline == (newline || Render(ps[i..], len1, b, split, norm).newline)
  }

  /** One round of the printing loop, at part `i` with the column count `len1` before it and
      `len2` after it, taking the output from `out0` to `out` and the line-break flag from
      `newline0` to `newline`: an elided part ends the rendering, any other part leaves the
      rest of the loop to render the remaining parts from `len2`. */
  lemma RenderStep(ps: seq<Part>, i: nat, i1: nat, len1: int, len2: int, b: int, split: bool, norm: string,
                   whole: Rendering, out0: string, newline0: bool, out: string, newline: bool,
                   text: string, elide: bool)
    requires i < |ps| && i1 == i + 1 && len2 == len1 + |ps[i].str|
    requires elide == (len2 >= b && !split)
    requires text == if elide then Clip(ps[i].str, b - len1 - 3) + "..." else ps[i].str
    requires Pending(whole, ps, i, len1, b, split, norm, out0, newline0)
    requires out == out0 + ShowPart(ps[i], text, norm)
    requires newline == (newline0 || (len2 >= b && split))
    ensures elide ==> whole == Rendering(out, newline)
    ensures !elide ==> Pending(whole, ps, i1, len2, b, split, norm, out, newline)
  {
    assert ps[i..][0] == ps[i] && ps[i..][1..] == ps[i1..];
    var shown := ShowPart(ps[i], text, norm);
    if !elide {
      var rest := Render(ps[i1..], len2, b, split, norm);
      assert Render(ps[i..], len1, b, split, norm).out == shown + rest.out;
      assert out0 + (shown + rest.out) == (out0 + shown) + rest.out;
    }
  }

  /** The printing loop of `format`. Each part is written as its colour, its text and the
      normal colour, the colours only when the part has one. */
  method RenderParts(ps: seq<Part>, b: int, split: bool, norm: string) returns (out: string, newline: bool)
    ensures Rendering(out, newline) == Render(ps, 0, b, split, norm)
  {
    out, newline := "", false;
    ghost var whole := Render(ps, 0, b, split, norm);
    var elide := false;
    var len1 := 0;
    var i := 0;
    assert ps[0..] == ps;
    while i < |ps|
      invariant 0 <= i <= |ps| && !elide
      invariant Pending(whole, ps, i, len1, b, split, norm, out, newline)
    {
      ghost var out0, newline0 := out, newline;
      var part := ps[i];
      var len2 := len1 + |part.str|;
      var text;
      if len2 >= b {
        if split {
          newline := true;
          text := part.str;
        } else {
          elide := true;
          text := Clip(part.str, b - len1 - 3) + "...";
        }
      } else {
        text := part.str;
      }
      out := out + ShowPart(part, text, norm);
      RenderStep(ps, i, i + 1, len1, len2, b, split, norm, whole, out0, newline0, out, newline, text, elide);
      len1 := len2;
      if elide {
        break;
      }
      i := i + 1;
    }
    assert elide || out + "" == out;
  }

  //-------------------------------------------------------------------------------------------
  // The whole of `format`

  /** What `format` reads of the formatter object. */
  datatype Settings = Settings(split: bool, prompt: bool, postfix: string, breakLen: int,
                               color: bool, term: Terminal, promptColor: string,
                               formats: seq<Format>)

  /** The two control characters written after a line that reached the break length. */
  const LINE_BREAK: string := "\n\U{0B}"

  /** Everything `format(dir)` writes. */
  function Formatted(st: Settings, dir: string): string
  {
    var seg := Segment(st.formats, Prepared(dir));
    if st.color then FillOf(seg.cuts, st.term, st.prompt)
    else
      var promptStr := ColorEscape(st.term, st.promptColor, st.prompt);
      var norm := ColorEscape(st.term, "norm", st.prompt);
      Finish(Render(PartsOf(seg, promptStr, st.term, st.prompt), 0, st.breakLen, st.split, norm), st.postfix)
  }

  /** The printed parts, the line break when asked for, and the postfix. */
  function Finish(r: Rendering, postfix: string): string
  {
    r.out + (if r.newline then LINE_BREAK else "") + postfix
  }

  /** In colour mode only the background sequence of the last matched rule is written, or
      nothing: no text and no postfix. */
  lemma ColorModeFillOnly(st: Settings, dir: string)
    requires st.color
    ensures var cuts := Segment(st.formats, Prepared(dir)).cuts;
            var r := Formatted(st, dir);
            r == [] || (cuts != [] && r == Osc11(cuts[|cuts| - 1].rule.fill))
  {
    var cuts := Segment(st.formats, Prepared(dir)).cuts;
    assert Formatted(st, dir) == FillOf(cuts, st.term, st.prompt);
  }

  /** Otherwise the postfix comes last, after the line break when one is asked for. */
  lemma PostfixLast(st: Settings, dir: string)
    requires !st.color
    ensures var r := Formatted(st, dir);
            |st.postfix| <= |r| && r[|r| - |st.postfix|..] == st.postfix
  {
  }

  /** The method form of `format`. */
  method FormatDir(st: Settings, dir: string) returns (out: string)
    ensures out == Formatted(st, dir)
  {
    var directory := Prepare(dir);
    var promptColorStr := ColorEscape(st.term, st.promptColor, st.prompt);
    var normColorStr := ColorEscape(st.term, "norm", st.prompt);
    var parts, fillStr := SegmentDir(st.formats, directory, promptColorStr, st.term, st.prompt);
    if st.color {
      out := fillStr;
      return;
    }
    var newline;
    out, newline := RenderParts(parts, st.breakLen, st.split, normColorStr);
    ghost var r := Rendering(out, newline);
    if newline {
      out := out + LINE_BREAK;
    } else {
      assert out + "" == out;
    }
    if st.postfix != "" {
      out := out + st.postfix;
    } else {
      assert out + "" == out;
    }
    assert out == Finish(r, st.postfix);
  }
}
