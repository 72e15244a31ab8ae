/**
 The candidate generator: from a media file's name without extension (`stem`)
 and its extension (`ext`, with the leading dot and its original case) it
 builds the ordered list of sidecar JSON file names the archive might have
 used. Position in the list is priority. Nothing here looks at a filesystem.
 */
module SidecarNames {
  import opened Wrappers
  import opened Strings
  import opened Counter

  /** The suffix that marks a photo edited inside the photo service. */
  const Edited := "-edited"

  /** Every sidecar name ends with this. */
  const Json := ".json"

  /** The archive caps sidecar names; longer stems are also tried cut to this many characters. */
  const TruncationLength := 46

  /**
   The shortest and the longest candidate list: 4 + 2, and 4 + 5 + 4 + 1 + 2.
   The stray-character rule's one name is not in the maximum: it never fires
   together with the counter rule (`CounterExcludesTrailing`).
   */
  const MinCandidates := 6
  const MaxCandidates := 16

  /** `/[-]edited$/i` matches: `s` ends in `-edited` in any ASCII casing. */
  predicate HasEditedSuffix(s: string) {
    |s| >= |Edited| && EqualIgnoringAsciiCase(s[|s| - |Edited|..], Edited)
  }

  /** `s.replace(/[-]edited$/i, '')`: drops one trailing `-edited`, whatever its casing. */
  function StripEditedSuffix(s: string): (r: string)
    ensures HasEditedSuffix(s) ==> |r| + |Edited| == |s| && r == s[..|r|]
    ensures !HasEditedSuffix(s) ==> r == s
  {
    if HasEditedSuffix(s) then s[..|s| - |Edited|] else s
  }

  /** Whatever the casing of the suffix `e`, stripping `x + e` gives back `x`. */
  lemma StripEditedAppended(x: string, e: string)
    requires EqualIgnoringAsciiCase(e, Edited)
    ensures StripEditedSuffix(x + e) == x
  {
    assert (x + e)[|x + e| - |Edited|..] == e;
    assert (x + e)[..|x|] == x;
  }

  /** The video test of the source: the extension is exactly `.mp4` or `.MP4`, nothing in between. */
  predicate IsMp4(ext: string) {
    ext == ".mp4" || ext == ".MP4"
  }

  /** The stem ends in `_n-`, `_n` or `_`, each meaning one stray character at the end. */
  predicate HasTrailingAnomaly(s: string) {
    EndsWith(s, "_n-") || EndsWith(s, "_n") || EndsWith(s, "_")
  }

  /** The four names always tried first. */
  function BaseNames(s: string, ext: string): seq<string> {
    [s + ".json", s + ext + ".json", s + ".jpg.json", s + ".HEIC.json"]
  }

  /** The counter rule: `foo(1).jpg` has its sidecar at `foo.jpg(1).json`. */
  function CounterNames(s: string, ext: string): seq<string> {
    match MatchCounter(s)
    case None => []
    case Some(m) =>
      var name := StripEditedSuffix(m.name);
      [name + ext + m.counter + ".json"]
      + (if IsMp4(ext) then
           [ name + ".JPG" + m.counter + ".json", name + ".jpg" + m.counter + ".json",
             name + ".jpeg" + m.counter + ".json", name + ".heic" + m.counter + ".json" ]
         else [])
  }

  /** The stray-last-character rule: one name with the last character dropped. */
  function TrailingNames(s: string): seq<string> {
    if HasTrailingAnomaly(s) then [s[..|s| - 1] + ".json"] else []
  }

  /** The video-thumbnail rule: a video's sidecar may be named after its still image. */
  function ThumbnailNames(s: string, ext: string): seq<string> {
    if IsMp4(ext) then [s + ".JPG.json", s + ".jpg.json", s + ".jpeg.json", s + ".heic.json"] else []
  }

  /** The length-cap rule. */
  function TruncatedNames(s: string): seq<string> {
    if |s| > TruncationLength then [s[..TruncationLength] + ".json"] else []
  }

  /** The two lowest-priority names, always tried last. */
  function FallbackNames(s: string): seq<string> {
    [s + ".j.json", s + ".jp.json"]
  }

  /** A string that ends in a counter ends in `)`. */
  lemma CounterEndsInParen(s: string)
    requires EndsWithCounter(s)
    ensures |s| > 0 && s[|s| - 1] == ')'
  {
    var n :| 0 <= n <= |s| && IsCounter(s[n..]);
    assert s[n..][|s| - n - 1] == s[|s| - 1];
  }

  /** A stem with a stray last character ends in `-`, `n` or `_`. */
  lemma AnomalyLastCharacter(s: string)
    requires HasTrailingAnomaly(s)
    ensures |s| > 0 && (s[|s| - 1] == '-' || s[|s| - 1] == 'n' || s[|s| - 1] == '_')
  {
    if EndsWith(s, "_n-") {
      assert s[|s| - 3..][2] == s[|s| - 1];
    } else if EndsWith(s, "_n") {
      assert s[|s| - 2..][1] == s[|s| - 1];
    } else {
      assert s[|s| - 1..][0] == s[|s| - 1];
    }
  }

  /**
   The counter rule and the stray-character rule never fire together: a
   counter ends in `)`, the three stray endings in `-`, `n` or `_`.
   */
  lemma CounterExcludesTrailing(s: string)
    ensures EndsWithCounter(s) ==> !HasTrailingAnomaly(s)
    ensures HasTrailingAnomaly(s) ==> !EndsWithCounter(s)
  {
    if EndsWithCounter(s) && HasTrailingAnomaly(s) {
      CounterEndsInParen(s);
      AnomalyLastCharacter(s);
    }
  }

  /** How many names each conditional rule adds, stated from the rule's trigger alone. */
  function CounterCount(s: string, ext: string): nat {
    if !EndsWithCounter(s) then 0 else if IsMp4(ext) then 5 else 1
  }

  function TrailingCount(s: string): nat {
    if HasTrailingAnomaly(s) then 1 else 0
  }

  function ThumbnailCount(ext: string): nat {
    if IsMp4(ext) then 4 else 0
  }

  function TruncatedCount(s: string): nat {
    if |s| > TruncationLength then 1 else 0
  }

  /** Every name in `names` ends in `.json`. */
  predicate AllJson(names: seq<string>) {
    forall i :: 0 <= i < |names| ==> EndsWith(names[i], Json)
  }

  lemma AllJsonConcat(a: seq<string>, b: seq<string>)
    requires AllJson(a) && AllJson(b)
    ensures AllJson(a + b)
  {
    forall i | 0 <= i < |a + b|
      ensures EndsWith((a + b)[i], Json)
    {
      if i < |a| {
        assert (a + b)[i] == a[i];
      } else {
        assert (a + b)[i] == b[i - |a|];
      }
    }
  }

  /** Names formed as `stems[i] + ".json"` all end in `.json`. */
  lemma AllJsonAppended(names: seq<string>, stems: seq<string>)
    requires |names| == |stems|
    requires forall i :: 0 <= i < |names| ==> names[i] == stems[i] + ".json"
    ensures AllJson(names)
  {
    forall i | 0 <= i < |names|
      ensures EndsWith(names[i], Json)
    {
      EndsWithAppend(stems[i], ".json");
    }
  }

  lemma CounterNamesAllJson(s: string, ext: string)
    ensures AllJson(CounterNames(s, ext))
  {
    match MatchCounter(s)
    case None =>
    case Some(m) =>
      var name := StripEditedSuffix(m.name);
      CounterFormAllJson(name, ext, m.counter);
      if IsMp4(ext) {
        VideoCounterFormsAllJson(name, m.counter);
        AllJsonConcat([name + ext + m.counter + ".json"],
          [ name + ".JPG" + m.counter + ".json", name + ".jpg" + m.counter + ".json",
            name + ".jpeg" + m.counter + ".json", name + ".heic" + m.counter + ".json" ]);
      }
  }

  lemma CounterFormAllJson(name: string, ext: string, c: string)
    ensures AllJson([name + ext + c + ".json"])
  {
    EndsWithAppend(name + ext + c, ".json");
  }

  lemma VideoCounterFormsAllJson(name: string, c: string)
    ensures AllJson([ name + ".JPG" + c + ".json", name + ".jpg" + c + ".json",
                      name + ".jpeg" + c + ".json", name + ".heic" + c + ".json" ])
  {
    AllJsonAppended([ name + ".JPG" + c + ".json", name + ".jpg" + c + ".json",
                      name + ".jpeg" + c + ".json", name + ".heic" + c + ".json" ],
      [name + ".JPG" + c, name + ".jpg" + c, name + ".jpeg" + c, name + ".heic" + c]);
  }

  lemma BaseNamesAllJson(s: string, ext: string)
    ensures AllJson(BaseNames(s, ext))
  {
    AllJsonAppended(BaseNames(s, ext), [s, s + ext, s + ".jpg", s + ".HEIC"]);
  }

  lemma TrailingNamesAllJson(s: string)
    ensures AllJson(TrailingNames(s))
  {
    if HasTrailingAnomaly(s) {
      AllJsonAppended(TrailingNames(s), [s[..|s| - 1]]);
    }
  }

  lemma ThumbnailNamesAllJson(s: string, ext: string)
    ensures AllJson(ThumbnailNames(s, ext))
  {
    if IsMp4(ext) {
      AllJsonAppended(ThumbnailNames(s, ext), [s + ".JPG", s + ".jpg", s + ".jpeg", s + ".heic"]);
    }
  }

  lemma TruncatedNamesAllJson(s: string)
    ensures AllJson(TruncatedNames(s))
  {
    if |s| > TruncationLength {
      AllJsonAppended(TruncatedNames(s), [s[..TruncationLength]]);
    }
  }

  lemma FallbackNamesAllJson(s: string)
    ensures AllJson(FallbackNames(s))
  {
    AllJsonAppended(FallbackNames(s), [s + ".j", s + ".jp"]);
  }

  /** The names for an already-stripped stem `s`, in rule order. */
  function Names(s: string, ext: string): seq<string> {
    BaseNames(s, ext) + CounterNames(s, ext) + TrailingNames(s)
    + ThumbnailNames(s, ext) + TruncatedNames(s) + FallbackNames(s)
  }

  /** Where each rule's sub-list sits in `Names(s, ext)`. */
  lemma NamesLayout(s: string, ext: string)
    ensures var r := Names(s, ext);
      var t := 4 + |CounterNames(s, ext)|;
      var u := t + |TrailingNames(s)|;
      var v := u + |ThumbnailNames(s, ext)|;
      var w := v + |TruncatedNames(s)|;
      && |r| == w + 2
      && r[..4] == BaseNames(s, ext)
      && r[4..t] == CounterNames(s, ext)
      && r[t..u] == TrailingNames(s)
      && r[u..v] == ThumbnailNames(s, ext)
      && r[v..w] == TruncatedNames(s)
      && r[w..] == FallbackNames(s)
  {
    NamesHeadLayout(s, ext);
    NamesMiddleLayout(s, ext);
    NamesTailLayout(s, ext);
  }

  // The layout is proved in three parts: one obligation with all six slices
  // is far costlier for the solver than three with two or three each.

  lemma NamesHeadLayout(s: string, ext: string)
    ensures var r := Names(s, ext);
      var t := 4 + |CounterNames(s, ext)|;
      var u := t + |TrailingNames(s)|;
      var v := u + |ThumbnailNames(s, ext)|;
      var w := v + |TruncatedNames(s)|;
      && |r| == w + 2
      && r[..4] == BaseNames(s, ext)
  {
    var b, c, t, th, tr, f := BaseNames(s, ext), CounterNames(s, ext), TrailingNames(s),
                              ThumbnailNames(s, ext), TruncatedNames(s), FallbackNames(s);
    SixParts(Names(s, ext), b, c, t, th, tr, f);
  }

  lemma NamesMiddleLayout(s: string, ext: string)
    ensures var r := Names(s, ext);
      var t := 4 + |CounterNames(s, ext)|;
      var u := t + |TrailingNames(s)|;
      var v := u + |ThumbnailNames(s, ext)|;
      var w := v + |TruncatedNames(s)|;
      && w + 2 == |r|
      && r[4..t] == CounterNames(s, ext)
      && r[t..u] == TrailingNames(s)
  {
    var b, c, t, th, tr, f := BaseNames(s, ext), CounterNames(s, ext), TrailingNames(s),
                              ThumbnailNames(s, ext), TruncatedNames(s), FallbackNames(s);
    SixParts(Names(s, ext), b, c, t, th, tr, f);
  }

  lemma NamesTailLayout(s: string, ext: string)
    ensures var r := Names(s, ext);
      var t := 4 + |CounterNames(s, ext)|;
      var u := t + |TrailingNames(s)|;
      var v := u + |ThumbnailNames(s, ext)|;
      var w := v + |TruncatedNames(s)|;
      && w + 2 == |r|
      && r[u..v] == ThumbnailNames(s, ext)
      && r[v..w] == TruncatedNames(s)
      && r[w..] == FallbackNames(s)
  {
    var b, c, t, th, tr, f := BaseNames(s, ext), CounterNames(s, ext), TrailingNames(s),
                              ThumbnailNames(s, ext), TruncatedNames(s), FallbackNames(s);
    SixParts(Names(s, ext), b, c, t, th, tr, f);
  }

  /** Slicing a concatenation of six sequences at the part boundaries gives back the parts. */
  lemma SixParts(r: seq<string>, b: seq<string>, c: seq<string>, t: seq<string>, th: seq<string>,
                 tr: seq<string>, f: seq<string>)
    requires r == b + c + t + th + tr + f
    ensures var i1 := |b|;
      var i2 := i1 + |c|;
      var i3 := i2 + |t|;
      var i4 := i3 + |th|;
      var i5 := i4 + |tr|;
      && |r| == i5 + |f|
      && r[..i1] == b && r[i1..i2] == c && r[i2..i3] == t
      && r[i3..i4] == th && r[i4..i5] == tr && r[i5..] == f
  {
    assert r == b + (c + (t + (th + (tr + f))));
  }

  /** Each conditional sub-list has exactly as many names as its rule's trigger says. */
  lemma SubListLengths(s: string, ext: string)
    ensures |CounterNames(s, ext)| == CounterCount(s, ext)
    ensures |TrailingNames(s)| == TrailingCount(s)
    ensures |ThumbnailNames(s, ext)| == ThumbnailCount(ext)
    ensures |TruncatedNames(s)| == TruncatedCount(s)
  {
  }

  lemma NamesAllJson(s: string, ext: string)
    ensures AllJson(Names(s, ext))
  {
    var b, c, t, th, tr, f := BaseNames(s, ext), CounterNames(s, ext), TrailingNames(s),
                              ThumbnailNames(s, ext), TruncatedNames(s), FallbackNames(s);
    BaseNamesAllJson(s, ext);
    CounterNamesAllJson(s, ext);
    TrailingNamesAllJson(s);
    ThumbnailNamesAllJson(s, ext);
    TruncatedNamesAllJson(s);
    FallbackNamesAllJson(s);
    AllJsonConcat(b, c);
    AllJsonConcat(b + c, t);
    AllJsonConcat(b + c + t, th);
    AllJsonConcat(b + c + t + th, tr);
    AllJsonConcat(b + c + t + th + tr, f);
  }

  /** Bounds, the fixed head and the fixed tail of `Names`. */
  lemma NamesShape(s: string, ext: string)
    ensures var r := Names(s, ext);
      && MinCandidates <= |r| <= MaxCandidates
      && AllJson(r)
      && r[0] == s + ".json"
      && r[1] == s + ext + ".json"
      && r[2] == s + ".jpg.json"
      && r[3] == s + ".HEIC.json"
      && r[|r| - 2] == s + ".j.json"
      && r[|r| - 1] == s + ".jp.json"
  {
    NamesLayout(s, ext);
    SubListLengths(s, ext);
    CounterExcludesTrailing(s);
    NamesAllJson(s, ext);
    var r := Names(s, ext);
    assert r[..4][0] == r[0] && r[..4][3] == r[3];
    var w := |r| - 2;
    assert r[w..][0] == r[w] && r[w..][1] == r[w + 1];
  }

  /**
   The ordered candidate list for a media file: the base names, then the
   counter, stray-character, thumbnail and length-cap rules in that order,
   then the two fallbacks, all for the stem without a trailing `-edited`.
   Duplicates are kept.
   */
  function Candidates(stem: string, ext: string): (r: seq<string>)
    ensures MinCandidates <= |r| <= MaxCandidates
    ensures forall i :: 0 <= i < |r| ==> EndsWith(r[i], Json)
    ensures var s := StripEditedSuffix(stem);
      && r[0] == s + ".json"
      && r[1] == s + ext + ".json"
      && r[2] == s + ".jpg.json"
      && r[3] == s + ".HEIC.json"
      && r[|r| - 2] == s + ".j.json"
      && r[|r| - 1] == s + ".jp.json"
  {
    var s := StripEditedSuffix(stem);
    NamesShape(s, ext);
    Names(s, ext)
  }

  /** The list is 6 names plus whatever each triggered rule contributes: 5 or 1, 1, 4 and 1. */
  lemma CandidatesLength(stem: string, ext: string)
    ensures var s := StripEditedSuffix(stem);
      |Candidates(stem, ext)|
      == MinCandidates + CounterCount(s, ext) + TrailingCount(s) + ThumbnailCount(ext) + TruncatedCount(s)
  {
    var s := StripEditedSuffix(stem);
    NamesLayout(s, ext);
    SubListLengths(s, ext);
  }

  /**
   The bound of `Candidates` is tight: a video stem over 46 characters that
   ends in a counter gets all 16 names.
   */
  lemma LongestCandidates(stem: string, ext: string)
    requires var s := StripEditedSuffix(stem);
      EndsWithCounter(s) && IsMp4(ext) && |s| > TruncationLength
    ensures |Candidates(stem, ext)| == MaxCandidates
  {
    CandidatesLength(stem, ext);
    CounterExcludesTrailing(StripEditedSuffix(stem));
  }

  /** The counter names sit at positions 4 onwards. */
  lemma CounterNamesFollowBase(stem: string, ext: string)
    ensures var s := StripEditedSuffix(stem);
      var cn := CounterNames(s, ext);
      var r := Candidates(stem, ext);
      && 4 + |cn| <= |r|
      && r[4..4 + |cn|] == cn
  {
    NamesLayout(StripEditedSuffix(stem), ext);
  }

  /**
   The counter rule. When the (edited-stripped) stem is `p + n + c` with `c` a
   counter, `n` free of line terminators and `p` empty or ending in one (so the
   match's `name` group is `n`), the fifth candidate is `n' + ext + c + ".json"`,
   where `n'` is `n` without a trailing `-edited`.
   */
  lemma CounterRule(stem: string, ext: string, p: string, n: string, c: string)
    requires StripEditedSuffix(stem) == p + n + c
    requires p == [] || IsLineTerminator(p[|p| - 1])
    requires NoLineTerminator(n) && IsCounter(c)
    ensures var r := Candidates(stem, ext);
      && CounterCount(StripEditedSuffix(stem), ext) >= 1
      && |r| > 4
      && r[4] == StripEditedSuffix(n) + ext + c + ".json"
  {
    MatchCounterSplit(p, n, c);
    var s := StripEditedSuffix(stem);
    var cn := CounterNames(s, ext);
    assert cn[0] == StripEditedSuffix(n) + ext + c + ".json";
    CounterNamesFollowBase(stem, ext);
    assert Candidates(stem, ext)[4..4 + |cn|][0] == cn[0];
  }

  /** For an `.mp4`/`.MP4` video the counter rule adds the four still-image variants right after. */
  lemma CounterRuleVideo(stem: string, ext: string, p: string, n: string, c: string)
    requires StripEditedSuffix(stem) == p + n + c
    requires p == [] || IsLineTerminator(p[|p| - 1])
    requires NoLineTerminator(n) && IsCounter(c)
    requires IsMp4(ext)
    ensures var r := Candidates(stem, ext);
      var name := StripEditedSuffix(n);
      && CounterCount(StripEditedSuffix(stem), ext) == 5
      && |r| > 8
      && r[5..9] == [name + ".JPG" + c + ".json", name + ".jpg" + c + ".json",
                     name + ".jpeg" + c + ".json", name + ".heic" + c + ".json"]
  {
    MatchCounterSplit(p, n, c);
    var s := StripEditedSuffix(stem);
    var cn := CounterNames(s, ext);
    var name := StripEditedSuffix(n);
    assert cn[1..] == [name + ".JPG" + c + ".json", name + ".jpg" + c + ".json",
                       name + ".jpeg" + c + ".json", name + ".heic" + c + ".json"];
    CounterNamesFollowBase(stem, ext);
    assert Candidates(stem, ext)[5..9] == cn[1..];
  }

  /**
   The stray-character rule. A stem ending in `_n-`, `_n` or `_` gets exactly one
   extra name, the stem without its last character, right after the counter names.
   */
  lemma TrailingRule(stem: string, ext: string)
    requires HasTrailingAnomaly(StripEditedSuffix(stem))
    ensures var s := StripEditedSuffix(stem);
      var r := Candidates(stem, ext);
      var t := 4 + CounterCount(s, ext);
      && TrailingCount(s) == 1
      && t < |r|
      && r[t] == s[..|s| - 1] + ".json"
  {
    var s := StripEditedSuffix(stem);
    NamesLayout(s, ext);
    SubListLengths(s, ext);
    var t := 4 + CounterCount(s, ext);
    assert Names(s, ext)[t..t + 1][0] == Names(s, ext)[t];
  }

  /** The thumbnail rule: for an `.mp4` or `.MP4` video, four still-image names follow the stray-character name. */
  lemma ThumbnailRule(stem: string, ext: string)
    requires IsMp4(ext)
    ensures var s := StripEditedSuffix(stem);
      var r := Candidates(stem, ext);
      var u := 4 + CounterCount(s, ext) + TrailingCount(s);
      && u + 4 <= |r|
      && r[u..u + 4] == [s + ".JPG.json", s + ".jpg.json", s + ".jpeg.json", s + ".heic.json"]
  {
    var s := StripEditedSuffix(stem);
    NamesLayout(s, ext);
    SubListLengths(s, ext);
  }

  /** The length-cap rule: a stem longer than 46 characters is also tried cut to its first 46, after the thumbnail names. */
  lemma TruncationRule(stem: string, ext: string)
    requires |StripEditedSuffix(stem)| > TruncationLength
    ensures var s := StripEditedSuffix(stem);
      var r := Candidates(stem, ext);
      var v := 4 + CounterCount(s, ext) + TrailingCount(s) + ThumbnailCount(ext);
      && v < |r|
      && r[v] == s[..TruncationLength] + ".json"
  {
    var s := StripEditedSuffix(stem);
    NamesLayout(s, ext);
    SubListLengths(s, ext);
    var v := 4 + CounterCount(s, ext) + TrailingCount(s) + ThumbnailCount(ext);
    assert Names(s, ext)[v..v + 1][0] == Names(s, ext)[v];
  }

  /** A stem that triggers no conditional rule gets exactly the four base names and the two fallbacks. */
  lemma PlainStemCandidates(stem: string, ext: string)
    requires var s := StripEditedSuffix(stem);
      !EndsWithCounter(s) && !HasTrailingAnomaly(s) && !IsMp4(ext) && |s| <= TruncationLength
    ensures var s := StripEditedSuffix(stem);
      Candidates(stem, ext)
      == [s + ".json", s + ext + ".json", s + ".jpg.json", s + ".HEIC.json", s + ".j.json", s + ".jp.json"]
  {
    var s := StripEditedSuffix(stem);
    assert MatchCounter(s).None?;
    assert Names(s, ext) == BaseNames(s, ext) + FallbackNames(s);
  }

  /**
   An edited copy shares its original's sidecar: appending `-edited` in any
   casing to a stem that does not already end in it leaves the list unchanged.
   */
  lemma EditedSuffixIgnored(x: string, e: string, ext: string)
    requires !HasEditedSuffix(x)
    requires EqualIgnoringAsciiCase(e, Edited)
    ensures Candidates(x + e, ext) == Candidates(x, ext)
  {
    StripEditedAppended(x, e);
  }
}
