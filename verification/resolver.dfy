/**
 The prober: walks the candidate list in order and returns the first name
 that exists next to the media file. Path resolution (`resolve`) and the
 existence test (`existsSync`) are parameters: `join` and `fileExists`.
 */
module Resolver {
  import opened Wrappers
  import opened Strings
  import opened SidecarNames

  /** Some candidate resolves, in `dir`, to a path that exists. */
  predicate AnyExists(dir: string, cs: seq<string>, join: (string, string) -> string, fileExists: string -> bool) {
    exists i :: 0 <= i < |cs| && fileExists(join(dir, cs[i]))
  }

  /**
   First-hit search: the path of the earliest candidate that exists, or `None`
   when none does. "Not found" is an ordinary answer, not an error.
   */
  function Probe(dir: string, cs: seq<string>, join: (string, string) -> string, fileExists: string -> bool)
    : (r: Option<string>)
    ensures r.Some? ==>
      exists i :: 0 <= i < |cs| && r.value == join(dir, cs[i]) && fileExists(r.value)
        && forall j :: 0 <= j < i ==> !fileExists(join(dir, cs[j]))
    ensures r.None? <==> !AnyExists(dir, cs, join, fileExists)
    decreases |cs|
  {
    if |cs| == 0 then
      None
    else
      var path := join(dir, cs[0]);
      if fileExists(path) then
        Some(path)
      else
        var rest := Probe(dir, cs[1..], join, fileExists);
        assert forall i :: 1 <= i < |cs| ==> cs[i] == cs[1..][i - 1];
        rest
  }

  /** The earliest existing candidate is the one returned, whatever later candidates exist. */
  lemma {:induction false} ProbeReturnsEarliest(
    dir: string, cs: seq<string>, join: (string, string) -> string, fileExists: string -> bool, i: nat)
    requires i < |cs|
    requires fileExists(join(dir, cs[i]))
    requires forall j :: 0 <= j < i ==> !fileExists(join(dir, cs[j]))
    ensures Probe(dir, cs, join, fileExists) == Some(join(dir, cs[i]))
    decreases i
  {
    if i > 0 {
      assert !fileExists(join(dir, cs[0]));
      assert forall j :: 0 <= j < i - 1 ==> cs[1..][j] == cs[j + 1];
      ProbeReturnsEarliest(dir, cs[1..], join, fileExists, i - 1);
    }
  }

  /** The answer depends only on whether the candidates' own paths exist. */
  lemma {:induction false} ProbeDependsOnlyOnCandidates(
    dir: string, cs: seq<string>, join: (string, string) -> string, e1: string -> bool, e2: string -> bool)
    requires forall i :: 0 <= i < |cs| ==> e1(join(dir, cs[i])) == e2(join(dir, cs[i]))
    ensures Probe(dir, cs, join, e1) == Probe(dir, cs, join, e2)
    decreases |cs|
  {
    if |cs| > 0 {
      assert forall i :: 0 <= i < |cs| - 1 ==> cs[1..][i] == cs[i + 1];
      ProbeDependsOnlyOnCandidates(dir, cs[1..], join, e1, e2);
    }
  }

  /**
   The whole resolver for a media file `dir/stem + ext`: probe the candidate
   list. The list itself is computed without `fileExists`.
   */
  function CompanionJsonPath(
    dir: string, stem: string, ext: string, join: (string, string) -> string, fileExists: string -> bool)
    : (r: Option<string>)
    ensures var cs := Candidates(stem, ext);
      && (r.Some? ==>
            exists i :: 0 <= i < |cs| && r.value == join(dir, cs[i]) && fileExists(r.value) && EndsWith(cs[i], ".json")
              && forall j :: 0 <= j < i ==> !fileExists(join(dir, cs[j])))
      && (r.None? <==> !AnyExists(dir, cs, join, fileExists))
  {
    Probe(dir, Candidates(stem, ext), join, fileExists)
  }

  /** An edited copy resolves to its original's sidecar. */
  lemma EditedMediaSharesCompanion(
    dir: string, x: string, e: string, ext: string, join: (string, string) -> string, fileExists: string -> bool)
    requires !HasEditedSuffix(x)
    requires EqualIgnoringAsciiCase(e, Edited)
    ensures CompanionJsonPath(dir, x + e, ext, join, fileExists) == CompanionJsonPath(dir, x, ext, join, fileExists)
  {
    EditedSuffixIgnored(x, e, ext);
  }
}
