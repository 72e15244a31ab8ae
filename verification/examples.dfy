/**
 Worked cases of the rules of the candidate generator and the prober, on
 concrete file names. Each case names its input through `requires` so that the
 proof works on a variable rather than on a literal, and the spelling of the
 concatenated literals is stated in small lemmas of its own: with the literals
 inline, the solver's sequence reasoning grows several times over.
 */
module Examples {
  import opened Wrappers
  import opened Strings
  import opened Counter
  import opened SidecarNames
  import opened Resolver

  /** `s` ends in none of `_n-`, `_n`, `_`, shown from its last three characters. */
  lemma NoStrayCharacter(s: string)
    requires |s| >= 3 && s[|s| - 1] != '_' && s[|s| - 1] != '-' && s[|s| - 1] != 'n'
    ensures !HasTrailingAnomaly(s)
  {
    assert s[|s| - 1..][0] == s[|s| - 1];
    assert s[|s| - 2..][1] == s[|s| - 1];
    assert s[|s| - 3..][2] == s[|s| - 1];
  }

  /** `s` has no counter suffix because it does not end in `)`. */
  lemma NoCounter(s: string)
    requires |s| > 0 && s[|s| - 1] != ')'
    ensures !EndsWithCounter(s)
  {
    CounterStartComplete(s);
  }

  /** A plain photo gets the four base names and the two fallbacks, nothing else. */
  lemma PlainPhoto(stem: string, ext: string)
    requires stem == "IMG" && ext == ".jpg"
    ensures Candidates(stem, ext)
      == ["IMG.json", "IMG.jpg.json", "IMG.jpg.json", "IMG.HEIC.json", "IMG.j.json", "IMG.jp.json"]
  {
    ImgIsPlain(stem);
    PlainStemCandidates(stem, ext);
    ImgSpelling(stem, ext);
    Assemble6(stem + ".json", stem + ext + ".json", stem + ".jpg.json", stem + ".HEIC.json",
              stem + ".j.json", stem + ".jp.json",
              "IMG.json", "IMG.jpg.json", "IMG.jpg.json", "IMG.HEIC.json", "IMG.j.json", "IMG.jp.json");
  }

  /** No rule beyond the base names and fallbacks fires for `IMG`. */
  lemma ImgIsPlain(stem: string)
    requires stem == "IMG"
    ensures StripEditedSuffix(stem) == stem
    ensures !EndsWithCounter(stem) && !HasTrailingAnomaly(stem) && |stem| <= TruncationLength
  {
    NoCounter(stem);
    NoStrayCharacter(stem);
  }

  /** Literal spelling of the `IMG.jpg` names. */
  lemma ImgSpelling(stem: string, ext: string)
    requires stem == "IMG" && ext == ".jpg"
    ensures stem + ".json" == "IMG.json"
    ensures stem + ext + ".json" == "IMG.jpg.json"
    ensures stem + ".jpg.json" == "IMG.jpg.json"
    ensures stem + ".HEIC.json" == "IMG.HEIC.json"
    ensures stem + ".j.json" == "IMG.j.json"
    ensures stem + ".jp.json" == "IMG.jp.json"
  {
  }

  /** Six equal pairs make equal six-element lists. */
  lemma Assemble6(a0: string, a1: string, a2: string, a3: string, a4: string, a5: string,
                  x0: string, x1: string, x2: string, x3: string, x4: string, x5: string)
    requires a0 == x0 && a1 == x1 && a2 == x2 && a3 == x3 && a4 == x4 && a5 == x5
    ensures [a0, a1, a2, a3, a4, a5] == [x0, x1, x2, x3, x4, x5]
  {
  }

  /**
   `IMG-edited.jpg` and `IMG-EDITED.jpg` look for the same sidecars as `IMG.jpg`:
   an edited copy uses its original's sidecar, as the comment at lines 9-11 of
   the resolver intends.
   */
  lemma EditedPhoto(stem: string)
    requires stem == "IMG-edited" || stem == "IMG-EDITED"
    ensures Candidates(stem, ".jpg") == Candidates("IMG", ".jpg")
  {
    EditedSplit(stem);
    ImgNotEdited("IMG");
    EditedSuffixIgnored("IMG", stem[3..], ".jpg");
  }

  /** Both edited stems are `IMG` followed by a casing of `-edited`. */
  lemma EditedSplit(stem: string)
    requires stem == "IMG-edited" || stem == "IMG-EDITED"
    ensures |stem| == 10 && stem == "IMG" + stem[3..]
    ensures EqualIgnoringAsciiCase(stem[3..], Edited)
  {
  }

  lemma ImgNotEdited(s: string)
    requires s == "IMG"
    ensures !HasEditedSuffix(s)
  {
  }

  /** The counter match of `foo(1)`: name `foo`, counter `(1)`. */
  lemma FooMatch(s: string)
    requires s == "foo(1)"
    ensures MatchCounter(s) == Some(CounterMatch("foo", "(1)"))
  {
    assert s == "foo" + "(1)";
    MatchCounterNoLineBreak("foo", "(1)");
  }

  /** `foo(1)` is the name `foo`, with no line break, followed by the counter `(1)`. */
  lemma FooParts(s: string)
    requires s == "foo(1)"
    ensures s == [] + "foo" + "(1)"
    ensures NoLineTerminator("foo") && IsCounter("(1)")
  {
  }

  /** Neither `foo(1)` nor `foo` ends in `-edited`. */
  lemma FooNotEdited(s: string)
    requires s == "foo(1)"
    ensures StripEditedSuffix(s) == s
    ensures StripEditedSuffix("foo") == "foo"
  {
  }

  /**
   `foo(1).jpg`: seven names; the counter name `foo.jpg(1).json` comes fifth.
   The comment at lines 24-25 of the resolver says Takeout produces neither
   `foo(1).json` nor `foo(1).jpg.json`, yet both are still tried before it.
   */
  lemma CounterPhoto(stem: string, ext: string)
    requires stem == "foo(1)" && ext == ".jpg"
    ensures Candidates(stem, ext)
      == ["foo(1).json", "foo(1).jpg.json", "foo(1).jpg.json", "foo(1).HEIC.json",
          "foo.jpg(1).json", "foo(1).j.json", "foo(1).jp.json"]
  {
    FooNotEdited(stem);
    FooPhotoNames(stem, ext);
  }

  lemma FooPhotoNames(s: string, ext: string)
    requires s == "foo(1)" && ext == ".jpg"
    ensures Names(s, ext)
      == ["foo(1).json", "foo(1).jpg.json", "foo(1).jpg.json", "foo(1).HEIC.json",
          "foo.jpg(1).json", "foo(1).j.json", "foo(1).jp.json"]
  {
    FooPhotoBase(s, ext);
    FooPhotoCounter(s, ext);
    FooPhotoNoOtherRule(s, ext);
    FooPhotoFallback(s);
    Assemble7(BaseNames(s, ext), CounterNames(s, ext), TrailingNames(s), ThumbnailNames(s, ext),
              TruncatedNames(s), FallbackNames(s),
              "foo(1).json", "foo(1).jpg.json", "foo(1).jpg.json", "foo(1).HEIC.json",
              "foo.jpg(1).json", "foo(1).j.json", "foo(1).jp.json");
  }

  /** A base part of four, a counter part of one, three empty rule parts and two fallbacks make seven names. */
  lemma Assemble7(b: seq<string>, c: seq<string>, t: seq<string>, th: seq<string>, tr: seq<string>, f: seq<string>,
                  x0: string, x1: string, x2: string, x3: string, x4: string, x5: string, x6: string)
    requires b == [x0, x1, x2, x3] && c == [x4] && t == [] && th == [] && tr == [] && f == [x5, x6]
    ensures b + c + t + th + tr + f == [x0, x1, x2, x3, x4, x5, x6]
  {
  }

  lemma FooPhotoBase(s: string, ext: string)
    requires s == "foo(1)" && ext == ".jpg"
    ensures BaseNames(s, ext) == ["foo(1).json", "foo(1).jpg.json", "foo(1).jpg.json", "foo(1).HEIC.json"]
  {
    assert s + ".json" == "foo(1).json";
    assert s + ext + ".json" == "foo(1).jpg.json";
    assert s + ".jpg.json" == "foo(1).jpg.json";
    assert s + ".HEIC.json" == "foo(1).HEIC.json";
  }

  lemma FooPhotoCounter(s: string, ext: string)
    requires s == "foo(1)" && ext == ".jpg"
    ensures CounterNames(s, ext) == ["foo.jpg(1).json"]
  {
    FooMatch(s);
    FooNotEdited(s);
    FooPhotoSpelling();
  }

  lemma FooPhotoNoOtherRule(s: string, ext: string)
    requires s == "foo(1)" && ext == ".jpg"
    ensures TrailingNames(s) == [] && ThumbnailNames(s, ext) == [] && TruncatedNames(s) == []
  {
    NoStrayCharacter(s);
  }

  lemma FooPhotoFallback(s: string)
    requires s == "foo(1)"
    ensures FallbackNames(s) == ["foo(1).j.json", "foo(1).jp.json"]
  {
    assert s + ".j.json" == "foo(1).j.json";
    assert s + ".jp.json" == "foo(1).jp.json";
  }

  lemma FooPhotoSpelling()
    ensures "foo" + ".jpg" + "(1)" + ".json" == "foo.jpg(1).json"
  {
  }

  /** `foo(1).mp4`: the counter rule also tries the motion-photo still's extensions. */
  lemma CounterVideo(stem: string, ext: string)
    requires stem == "foo(1)" && ext == ".mp4"
    ensures Candidates(stem, ext)[5..9]
      == ["foo.JPG(1).json", "foo.jpg(1).json", "foo.jpeg(1).json", "foo.heic(1).json"]
  {
    FooParts(stem);
    FooNotEdited(stem);
    CounterRuleVideo(stem, ext, [], "foo", "(1)");
    FooVideoSpelling();
  }

  lemma FooVideoSpelling()
    ensures "foo" + ".JPG" + "(1)" + ".json" == "foo.JPG(1).json"
    ensures "foo" + ".jpg" + "(1)" + ".json" == "foo.jpg(1).json"
    ensures "foo" + ".jpeg" + "(1)" + ".json" == "foo.jpeg(1).json"
    ensures "foo" + ".heic" + "(1)" + ".json" == "foo.heic(1).json"
  {
  }

  /**
   `clip_n.mp4` tries `clip_.json`; `clip_n-.mp4` tries `clip_n.json`: one character
   dropped either way, the pairs the comments at lines 43-50 of the resolver give.
   */
  lemma StrayCharacter(stem: string, ext: string)
    requires stem == "clip_n" || stem == "clip_n-"
    requires ext == ".mp4"
    ensures Candidates(stem, ext)[4] == stem[..|stem| - 1] + ".json"
    ensures stem == "clip_n" ==> Candidates(stem, ext)[4] == "clip_.json"
    ensures stem == "clip_n-" ==> Candidates(stem, ext)[4] == "clip_n.json"
  {
    ClipStem(stem);
    TrailingRule(stem, ext);
    ClipSpelling(stem);
  }

  /** Both clip stems are unedited, counter-free and end in a stray character. */
  lemma ClipStem(stem: string)
    requires stem == "clip_n" || stem == "clip_n-"
    ensures StripEditedSuffix(stem) == stem
    ensures !EndsWithCounter(stem) && HasTrailingAnomaly(stem)
  {
    assert !HasEditedSuffix(stem) by {
      if |stem| >= |Edited| {
        assert stem[|stem| - |Edited|..][0] == 'c';
      }
    }
    NoCounter(stem);
    if stem == "clip_n" {
      assert stem[|stem| - 2..] == "_n";
    } else {
      assert stem[|stem| - 3..] == "_n-";
    }
  }

  /** Literal spelling of the clip stems without their last character. */
  lemma ClipSpelling(stem: string)
    requires stem == "clip_n" || stem == "clip_n-"
    ensures stem == "clip_n" ==> stem[..|stem| - 1] + ".json" == "clip_.json"
    ensures stem == "clip_n-" ==> stem[..|stem| - 1] + ".json" == "clip_n.json"
  {
  }

  /** Only `.mp4` and `.MP4` count as video: `.Mp4` gets the plain six names, `.MP4` ten. */
  lemma MixedCaseVideoExtension(stem: string)
    requires stem == "clip"
    ensures |Candidates(stem, ".Mp4")| == 6
    ensures |Candidates(stem, ".MP4")| == 10
  {
    assert StripEditedSuffix(stem) == stem;
    NoCounter(stem);
    NoStrayCharacter(stem);
    CandidatesLength(stem, ".Mp4");
    CandidatesLength(stem, ".MP4");
  }

  /** A 50-character stem is also tried cut to its first 46 characters. */
  lemma LongStem(stem: string)
    requires stem == "abcdefghijklmnopqrstuvwxyzABCDEFGHIJKLMNOPQRSTUVWX"
    ensures Candidates(stem, ".jpg")[4] == "abcdefghijklmnopqrstuvwxyzABCDEFGHIJKLMNOPQRST.json"
  {
    LongStemPlain(stem);
    TruncationRule(stem, ".jpg");
    LongStemCut(stem);
  }

  /** The long stem has no `-edited` suffix, no counter and no stray last character. */
  lemma LongStemPlain(stem: string)
    requires stem == "abcdefghijklmnopqrstuvwxyzABCDEFGHIJKLMNOPQRSTUVWX"
    ensures |stem| == 50 && StripEditedSuffix(stem) == stem
    ensures !EndsWithCounter(stem) && !HasTrailingAnomaly(stem)
  {
    assert !HasEditedSuffix(stem) by {
      assert stem[|stem| - 7] != '-';
    }
    NoCounter(stem);
    NoStrayCharacter(stem);
  }

  /** Literal spelling of the cut long stem. */
  lemma LongStemCut(stem: string)
    requires stem == "abcdefghijklmnopqrstuvwxyzABCDEFGHIJKLMNOPQRSTUVWX"
    ensures stem[..46] + ".json" == "abcdefghijklmnopqrstuvwxyzABCDEFGHIJKLMNOPQRST.json"
  {
  }

  /** `.` stops at a line break, so the counter's `name` group is only the last line of the stem. */
  lemma CounterAfterLineBreak(stem: string)
    requires stem == "a\nb(2)"
    ensures Candidates(stem, ".jpg")[4] == "b.jpg(2).json"
  {
    assert stem == "a\n" + "b" + "(2)";
    assert IsLineTerminator("a\n"[1]) && NoLineTerminator("b") && IsCounter("(2)");
    assert StripEditedSuffix(stem) == stem;
    CounterRule(stem, ".jpg", "a\n", "b", "(2)");
    assert StripEditedSuffix("b") == "b";
    LineBreakSpelling();
  }

  lemma LineBreakSpelling()
    ensures "b" + ".jpg" + "(2)" + ".json" == "b.jpg(2).json"
  {
  }

  /**
   With `foo.jpg(1).json` and `foo(1).jp.json` both on disk, and none of the
   base names, `foo(1).jpg` resolves to the former: it comes earlier in the list.
   */
  lemma EarlierCandidateWins(dir: string, stem: string, join: (string, string) -> string, fileExists: string -> bool)
    requires stem == "foo(1)"
    requires fileExists(join(dir, "foo.jpg(1).json")) && fileExists(join(dir, "foo(1).jp.json"))
    requires !fileExists(join(dir, "foo(1).json"))
    requires !fileExists(join(dir, "foo(1).jpg.json"))
    requires !fileExists(join(dir, "foo(1).HEIC.json"))
    ensures CompanionJsonPath(dir, stem, ".jpg", join, fileExists) == Some(join(dir, "foo.jpg(1).json"))
  {
    var cs := Candidates(stem, ".jpg");
    CounterPhoto(stem, ".jpg");
    Leading5(cs, "foo(1).json", "foo(1).jpg.json", "foo(1).jpg.json", "foo(1).HEIC.json",
             "foo.jpg(1).json", "foo(1).j.json", "foo(1).jp.json");
    ProbeAfterMisses(dir, cs, join, fileExists);
  }

  /** The first five elements of a seven-element list. */
  lemma Leading5(cs: seq<string>, x0: string, x1: string, x2: string, x3: string, x4: string, x5: string, x6: string)
    requires cs == [x0, x1, x2, x3, x4, x5, x6]
    ensures |cs| > 4 && cs[0] == x0 && cs[1] == x1 && cs[2] == x2 && cs[3] == x3 && cs[4] == x4
  {
  }

  /** Probing stops at the first of the leading candidates that exists. */
  lemma ProbeAfterMisses(dir: string, cs: seq<string>, join: (string, string) -> string, fileExists: string -> bool)
    requires |cs| > 4
    requires !fileExists(join(dir, cs[0])) && !fileExists(join(dir, cs[1]))
    requires !fileExists(join(dir, cs[2])) && !fileExists(join(dir, cs[3]))
    requires fileExists(join(dir, cs[4]))
    ensures Probe(dir, cs, join, fileExists) == Some(join(dir, cs[4]))
  {
    ProbeReturnsEarliest(dir, cs, join, fileExists, 4);
  }

  /** With no sidecar on disk the answer is "no match". */
  lemma NothingOnDisk(dir: string, stem: string, ext: string, join: (string, string) -> string)
    ensures CompanionJsonPath(dir, stem, ext, join, p => false) == None
  {
  }
}
