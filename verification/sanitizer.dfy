/** The response sanitizer: the global replacement of the pattern
    /```json\n?|\n?```/g by the empty string, followed by `trim`.

    The regular expression is read as four literal alternatives tried in
    order at each position of a left-to-right scan: "```json\n" (the first
    branch with its optional newline taken), "```json" (without it),
    "\n```" (the second branch with its optional newline taken) and "```"
    (without it). The first that matches is removed and the scan resumes
    after it; if none matches, the character is kept and the scan moves on by
    one. Every alternative is non-empty, so no empty match ever occurs.

    `FirstMatch` states this reading directly over the four strings.
    `MatchLength` is the same matcher written with character tests, and
    `MatchLengthAgrees` proves that the two pick the same match. */
module Sanitizer {
  import opened Wrappers
  import opened Whitespace

  const FenceJsonNewline: string := "```json\n"
  const FenceJson: string := "```json"
  const NewlineFence: string := "\n```"
  const Fence: string := "```"

  /** The alternatives of the pattern, in the order the matcher tries them. */
  const Alternatives: seq<string> := [FenceJsonNewline, FenceJson, NewlineFence, Fence]

  /** `p` is a prefix of `s`. */
  predicate StartsWith(s: string, p: string)
  {
    |p| <= |s| && s[..|p|] == p
  }

  /** The index of the first alternative, from `from` on, that matches at the
      start of `s`; `None` when none does. */
  function FirstMatchFrom(s: string, from: nat): (m: Option<nat>)
    requires from <= |Alternatives|
    ensures m.Some? ==> from <= m.value < |Alternatives| && StartsWith(s, Alternatives[m.value])
    ensures m.Some? ==> forall j :: from <= j < m.value ==> !StartsWith(s, Alternatives[j])
    ensures m.None? ==> forall j :: from <= j < |Alternatives| ==> !StartsWith(s, Alternatives[j])
    decreases |Alternatives| - from
  {
    if from == |Alternatives| then None
    else if StartsWith(s, Alternatives[from]) then Some(from)
    else FirstMatchFrom(s, from + 1)
  }

  /** The alternative the matcher picks at the start of `s`, if any: the
      earliest one in pattern order that matches. */
  function FirstMatch(s: string): (m: Option<string>)
    ensures m.Some? ==> m.value in Alternatives && StartsWith(s, m.value)
    ensures m.None? ==> forall j :: 0 <= j < |Alternatives| ==> !StartsWith(s, Alternatives[j])
    ensures m.Some? ==> |m.value| > 0
    ensures m.Some? ==> exists k :: 0 <= k < |Alternatives| && m.value == Alternatives[k]
                                    && forall j :: 0 <= j < k ==> !StartsWith(s, Alternatives[j])
  {
    match FirstMatchFrom(s, 0)
    case Some(k) => Some(Alternatives[k])
    case None => None
  }

  /** Three backticks start at position `i` of `s`. */
  predicate FenceAt(s: string, i: nat)
  {
    i + 3 <= |s| && s[i] == '`' && s[i + 1] == '`' && s[i + 2] == '`'
  }

  /** The tag `json` starts at position `i` of `s`. */
  predicate TagAt(s: string, i: nat)
  {
    i + 4 <= |s| && s[i] == 'j' && s[i + 1] == 's' && s[i + 2] == 'o' && s[i + 3] == 'n'
  }

  /** Alternative `k` of the pattern matches at the start of `s`, decided
      character by character. */
  predicate AlternativeAt(s: string, k: nat)
    requires k < |Alternatives|
  {
    match k
    case 0 => FenceAt(s, 0) && TagAt(s, 3) && 7 < |s| && s[7] == '\n'
    case 1 => FenceAt(s, 0) && TagAt(s, 3)
    case 2 => 0 < |s| && s[0] == '\n' && FenceAt(s, 1)
    case _ => FenceAt(s, 0)
  }

  /** The length of the first alternative, from `k` on, that matches at the
      start of `s`, or 0 when none does. */
  function MatchLengthFrom(s: string, k: nat): (n: nat)
    requires k <= |Alternatives|
    ensures n <= |s|
    ensures n > 0 ==> FenceAt(s, 0) || (FenceAt(s, 1) && s[0] == '\n')
    decreases |Alternatives| - k
  {
    if k == |Alternatives| then 0
    else if AlternativeAt(s, k) then |Alternatives[k]|
    else MatchLengthFrom(s, k + 1)
  }

  /** The length of the match removed at the start of `s`, or 0 when no
      alternative matches there. Every match holds a fence, at its start or
      after a newline. */
  function MatchLength(s: string): (n: nat)
    ensures n <= |s|
    ensures n > 0 ==> FenceAt(s, 0) || (FenceAt(s, 1) && s[0] == '\n')
  {
    MatchLengthFrom(s, 0)
  }

  /** `s` starts with `p` exactly when their characters agree up to `|p|`. */
  lemma StartsWithChars(s: string, p: string)
    ensures StartsWith(s, p) <==> |p| <= |s| && forall i :: 0 <= i < |p| ==> s[i] == p[i]
  {
    if |p| <= |s| && forall i :: 0 <= i < |p| ==> s[i] == p[i] {
      assert s[..|p|] == p;
    }
    if StartsWith(s, p) {
      forall i | 0 <= i < |p|
        ensures s[i] == p[i]
      {
        assert s[..|p|][i] == s[i];
      }
    }
  }

  /** Each alternative's character tests hold exactly where the
      alternative's text is a prefix. */
  lemma AlternativeAtAgrees(s: string, k: nat)
    requires k < |Alternatives|
    ensures AlternativeAt(s, k) <==> StartsWith(s, Alternatives[k])
  {
    StartsWithChars(s, Alternatives[k]);
  }

  /** From any alternative on, the character-level matcher and the
      pattern-order matcher agree. */
  lemma {:induction false} MatchLengthFromAgrees(s: string, k: nat)
    requires k <= |Alternatives|
    ensures MatchLengthFrom(s, k) == 0 <==> FirstMatchFrom(s, k).None?
    ensures MatchLengthFrom(s, k) > 0 ==> MatchLengthFrom(s, k) == |Alternatives[FirstMatchFrom(s, k).value]|
    decreases |Alternatives| - k
  {
    if k < |Alternatives| {
      AlternativeAtAgrees(s, k);
      MatchLengthFromAgrees(s, k + 1);
    }
  }

  /** The character-level matcher removes exactly the alternative that the
      pattern's order picks: nothing when no alternative matches, and
      otherwise the first one that does. */
  lemma MatchLengthAgrees(s: string)
    ensures MatchLength(s) == 0 <==> FirstMatch(s).None?
    ensures MatchLength(s) > 0 ==> FirstMatch(s) == Some(s[..MatchLength(s)])
  {
    MatchLengthFromAgrees(s, 0);
  }

  /** One step of the scan: a character left in place, or a match removed. */
  datatype Piece = Kept(c: char) | Removed(token: string)

  /** The scan of `s`: how the global replacement walks it from left to
      right. */
  function Scan(s: string): (ps: seq<Piece>)
    ensures |ps| <= |s|
    ensures Render(ps) == s
    decreases |s|
  {
    if |s| == 0 then []
    else
      var n := MatchLength(s);
      if n == 0 then
        var rest := Scan(s[1..]);
        RenderCons(Kept(s[0]), rest);
        SliceJoin(s, 1);
        [Kept(s[0])] + rest
      else
        var rest := Scan(s[n..]);
        RenderCons(Removed(s[..n]), rest);
        SliceJoin(s, n);
        [Removed(s[..n])] + rest
  }

  /** The text a scan walked over: kept characters and removed matches. */
  function Render(ps: seq<Piece>): (text: string)
  {
    if |ps| == 0 then ""
    else match ps[0]
      case Kept(c) => [c] + Render(ps[1..])
      case Removed(t) => t + Render(ps[1..])
  }

  /** The characters a scan leaves in place, in order. */
  function KeptText(ps: seq<Piece>): (r: string)
    ensures |r| <= |Render(ps)|
  {
    if |ps| == 0 then ""
    else match ps[0]
      case Kept(c) => [c] + KeptText(ps[1..])
      case Removed(t) => KeptText(ps[1..])
  }

  /** Rendering a scan, or taking its kept text, when it starts with a given
      piece. */
  lemma RenderCons(p: Piece, ps: seq<Piece>)
    ensures Render([p] + ps) == (if p.Kept? then [p.c] else p.token) + Render(ps)
    ensures KeptText([p] + ps) == (if p.Kept? then [p.c] else "") + KeptText(ps)
  {
    assert ([p] + ps)[1..] == ps;
  }

  /** The result of the replacement: the input with every match removed. */
  function StripFences(s: string): (r: string)
    ensures |r| <= |s|
  {
    KeptText(Scan(s))
  }

  /** The sanitized completion: fences removed, then trimmed. It is never
      longer than the completion and never begins or ends with white space. */
  function Sanitize(completion: string): (r: string)
    ensures |r| <= |completion|
    ensures Trimmed(r)
  {
    Trim(StripFences(completion))
  }

  /** The scan of a string that starts with a match. */
  lemma ScanRemovedStep(s: string)
    requires MatchLength(s) > 0
    ensures Scan(s) == [Removed(s[..MatchLength(s)])] + Scan(s[MatchLength(s)..])
  {
  }

  /** The scan of a string that starts with a kept character. */
  lemma ScanKeptStep(s: string)
    requires |s| > 0 && MatchLength(s) == 0
    ensures Scan(s) == [Kept(s[0])] + Scan(s[1..])
  {
  }

  /** A string is its prefix of length `n` followed by the rest. */
  lemma SliceJoin(s: string, n: nat)
    requires n <= |s|
    ensures s[..n] + s[n..] == s
    ensures n == 1 ==> [s[0]] + s[1..] == s
  {
    if n == 1 {
      assert [s[0]] == s[..1];
    }
  }

  /** A tokenisation of `s` read directly off the pattern: each removed piece
      is the alternative the pattern's order picks at that point, and each
      kept piece is a character where no alternative matches. */
  predicate IsScanOf(ps: seq<Piece>, s: string)
    decreases |ps|
  {
    if |ps| == 0 then s == ""
    else match ps[0]
      case Removed(t) =>
        FirstMatch(s) == Some(t) && IsScanOf(ps[1..], s[|t|..])
      case Kept(c) =>
        |s| > 0 && s[0] == c && FirstMatch(s).None? && IsScanOf(ps[1..], s[1..])
  }

  /** The scan is the leftmost, first-alternative tokenisation of its input,
      and the only one. */
  lemma {:induction false} ScanIsLeftmost(s: string, ps: seq<Piece>)
    ensures IsScanOf(Scan(s), s)
    ensures IsScanOf(ps, s) ==> ps == Scan(s)
    decreases |s|
  {
    if |s| > 0 {
      MatchLengthAgrees(s);
      var n := MatchLength(s);
      var tail := if |ps| > 0 then ps[1..] else ps;
      if n == 0 {
        ScanIsLeftmost(s[1..], tail);
        ScanIsLeftmostKept(s, ps);
      } else {
        ScanIsLeftmost(s[n..], tail);
        ScanIsLeftmostRemoved(s, ps);
      }
    } else if |ps| > 0 {
      PiecesCons(ps);
      IsScanOfCons(ps[0], ps[1..], s);
    }
  }

  /** A non-empty list of pieces is its first piece followed by the rest. */
  lemma PiecesCons(ps: seq<Piece>)
    requires |ps| > 0
    ensures ps == [ps[0]] + ps[1..]
  {
  }

  /** Whether a list starting with a given piece tokenises `s`. */
  lemma IsScanOfCons(p: Piece, rest: seq<Piece>, s: string)
    ensures p.Removed? ==>
      (IsScanOf([p] + rest, s) <==> FirstMatch(s) == Some(p.token) && IsScanOf(rest, s[|p.token|..]))
    ensures p.Kept? ==>
      (IsScanOf([p] + rest, s) <==> |s| > 0 && s[0] == p.c && FirstMatch(s).None? && IsScanOf(rest, s[1..]))
  {
    assert ([p] + rest)[1..] == rest;
  }

  /** One step of `ScanIsLeftmost` where the front character is kept. */
  lemma ScanIsLeftmostKept(s: string, ps: seq<Piece>)
    requires |s| > 0 && MatchLength(s) == 0 && FirstMatch(s).None?
    requires IsScanOf(Scan(s[1..]), s[1..])
    requires |ps| > 0 && IsScanOf(ps[1..], s[1..]) ==> ps[1..] == Scan(s[1..])
    ensures IsScanOf(Scan(s), s)
    ensures IsScanOf(ps, s) ==> ps == Scan(s)
  {
    ScanKeptStep(s);
    IsScanOfCons(Kept(s[0]), Scan(s[1..]), s);
    if IsScanOf(ps, s) {
      PiecesCons(ps);
      IsScanOfCons(ps[0], ps[1..], s);
    }
  }

  /** One step of `ScanIsLeftmost` where the front match is removed. */
  lemma ScanIsLeftmostRemoved(s: string, ps: seq<Piece>)
    requires MatchLength(s) > 0 && FirstMatch(s) == Some(s[..MatchLength(s)])
    requires IsScanOf(Scan(s[MatchLength(s)..]), s[MatchLength(s)..])
    requires |ps| > 0 && IsScanOf(ps[1..], s[MatchLength(s)..]) ==> ps[1..] == Scan(s[MatchLength(s)..])
    ensures IsScanOf(Scan(s), s)
    ensures IsScanOf(ps, s) ==> ps == Scan(s)
  {
    var n := MatchLength(s);
    ScanRemovedStep(s);
    IsScanOfCons(Removed(s[..n]), Scan(s[n..]), s);
    if IsScanOf(ps, s) {
      PiecesCons(ps);
      IsScanOfCons(ps[0], ps[1..], s);
    }
  }

  /** Every removed piece of a scan is one of the four fence alternatives. */
  lemma {:induction false} ScanRemovesOnlyFences(s: string)
    ensures forall k :: 0 <= k < |Scan(s)| && Scan(s)[k].Removed? ==> Scan(s)[k].token in Alternatives
    decreases |s|
  {
    if |s| > 0 {
      MatchLengthAgrees(s);
      var n := MatchLength(s);
      if n == 0 {
        ScanRemovesOnlyFences(s[1..]);
      } else {
        ScanRemovesOnlyFences(s[n..]);
      }
    }
  }

  /** Removing the match at the front. */
  lemma StripFencesRemoved(s: string)
    requires MatchLength(s) > 0
    ensures StripFences(s) == StripFences(s[MatchLength(s)..])
  {
    var n := MatchLength(s);
    ScanRemovedStep(s);
    RenderCons(Removed(s[..n]), Scan(s[n..]));
  }

  /** Keeping the front character where no alternative matches. */
  lemma StripFencesKept(s: string)
    requires |s| > 0 && MatchLength(s) == 0
    ensures StripFences(s) == [s[0]] + StripFences(s[1..])
  {
    ScanKeptStep(s);
    RenderCons(Kept(s[0]), Scan(s[1..]));
  }

  /** A completion without any backtick has nothing removed. */
  lemma {:induction false} StripFencesWithoutBacktick(s: string)
    requires forall i :: 0 <= i < |s| ==> s[i] != '`'
    ensures StripFences(s) == s
    decreases |s|
  {
    if |s| > 0 {
      assert MatchLength(s) == 0 by {
        assert s[0] != '`';
        assert |s| > 1 ==> s[1] != '`';
      }
      StripFencesKept(s);
      StripFencesWithoutBacktick(s[1..]);
      assert s == [s[0]] + s[1..];
    }
  }

  /** A completion without any backtick is only trimmed; if it also neither
      begins nor ends with white space it is returned unchanged. */
  lemma SanitizeWithoutBacktick(s: string)
    requires forall i :: 0 <= i < |s| ==> s[i] != '`'
    ensures Sanitize(s) == Trim(s)
    ensures Trimmed(s) ==> Sanitize(s) == s
  {
    StripFencesWithoutBacktick(s);
    if Trimmed(s) {
      TrimKeepsTrimmed(s);
    }
  }

  /** For the leftmost, first-alternative tokenisation of a completion, the
      sanitized text is the characters no removed match covers, in their
      original order, with white space trimmed from both ends. The removed
      matches and kept characters together are exactly the completion. */
  lemma SanitizeKeepsUnmatched(s: string, ps: seq<Piece>)
    requires IsScanOf(ps, s)
    ensures Render(ps) == s
    ensures Sanitize(s) == Trim(KeptText(ps))
  {
    ScanIsLeftmost(s, ps);
  }

  /** Keeping every character of a stretch in which no alternative matches. */
  lemma {:induction false} StripFencesKeptRun(s: string, n: nat)
    requires n <= |s|
    requires forall k :: 0 <= k < n ==> MatchLength(s[k..]) == 0
    ensures StripFences(s) == s[..n] + StripFences(s[n..])
    decreases n
  {
    if n > 0 {
      KeptRunHead(s, n);
      StripFencesKept(s);
      KeptRunTail(s, n);
      StripFencesKeptRun(s[1..], n - 1);
      KeptRunSlices(s, n);
    }
  }

  /** The first character of a stretch without matches is kept. */
  lemma KeptRunHead(s: string, n: nat)
    requires 0 < n <= |s|
    requires forall k :: 0 <= k < n ==> MatchLength(s[k..]) == 0
    ensures MatchLength(s) == 0
  {
    assert s[0..] == s;
  }

  /** The rest of a stretch without matches has no matches either. */
  lemma KeptRunTail(s: string, n: nat)
    requires 0 < n <= |s|
    requires forall k :: 0 <= k < n ==> MatchLength(s[k..]) == 0
    ensures forall k :: 0 <= k < n - 1 ==> MatchLength(s[1..][k..]) == 0
  {
    forall k | 0 <= k < n - 1
      ensures MatchLength(s[1..][k..]) == 0
    {
      assert s[1..][k..] == s[k + 1..];
    }
  }

  /** How the slices of `s` and of its tail line up. */
  lemma KeptRunSlices(s: string, n: nat)
    requires 0 < n <= |s|
    ensures s[1..][n - 1..] == s[n..]
    ensures s[..n] == [s[0]] + s[1..][..n - 1]
  {
  }

  /** No alternative matches at a character that is not a backtick, unless
      it is a newline followed by a backtick. */
  lemma NoMatchAt(s: string)
    requires |s| > 0 && s[0] != '`'
    requires s[0] == '\n' && |s| > 1 ==> s[1] != '`'
    ensures MatchLength(s) == 0
  {
  }

  /** Text without backticks passes through the replacement unchanged, as
      long as what follows it does not start with a backtick. */
  lemma StripFencesNoBacktickPrefix(b: string, x: string)
    requires forall i :: 0 <= i < |b| ==> b[i] != '`'
    requires |x| > 0 ==> x[0] != '`'
    ensures StripFences(b + x) == b + StripFences(x)
  {
    var s := b + x;
    forall k | 0 <= k < |b|
      ensures MatchLength(s[k..]) == 0
    {
      assert s[k..][0] == b[k];
      assert k + 1 < |s| ==> s[k..][1] == s[k + 1];
      NoMatchAt(s[k..]);
    }
    StripFencesKeptRun(s, |b|);
    assert s[..|b|] == b && s[|b|..] == x;
  }

  /** An opening fence tagged json, with its newline, is removed. */
  lemma StripFencesOpeningJsonFence(x: string)
    ensures StripFences(FenceJsonNewline + x) == StripFences(x)
  {
    var s := FenceJsonNewline + x;
    AlternativeAtAgrees(s, 0);
    assert s[..8] == FenceJsonNewline;
    StripFencesRemoved(s);
    assert s[8..] == x;
  }

  /** A closing fence on its own line is removed together with its newline. */
  lemma StripFencesClosingFence(x: string)
    ensures StripFences(NewlineFence + x) == StripFences(x)
  {
    var s := NewlineFence + x;
    assert s[0] == '\n' && s[1] == s[2] == s[3] == '`';
    assert MatchLength(s) == 4;
    StripFencesRemoved(s);
    assert s[4..] == x;
  }

  /** A fence not followed by the json tag loses its three backticks only:
      any other tag stays in the text. */
  lemma StripFencesOtherFence(x: string)
    requires !TagAt(x, 0)
    ensures StripFences(Fence + x) == StripFences(x)
  {
    var s := Fence + x;
    assert s[0] == s[1] == s[2] == '`';
    assert forall i :: 0 <= i < |x| ==> s[3 + i] == x[i];
    assert MatchLength(s) == 3;
    StripFencesRemoved(s);
    assert s[3..] == x;
  }

  /** A completion that is a json-tagged code block around a body without
      backticks sanitizes to the body, trimmed: the form the model's answers
      usually take comes out as the bare JSON text. */
  lemma SanitizeJsonFenced(b: string)
    requires forall i :: 0 <= i < |b| ==> b[i] != '`'
    ensures Sanitize(FenceJsonNewline + b + NewlineFence) == Trim(b)
  {
    assert FenceJsonNewline + b + NewlineFence == FenceJsonNewline + (b + (NewlineFence + ""));
    StripFencesOpeningJsonFence(b + (NewlineFence + ""));
    StripFencesNoBacktickPrefix(b, NewlineFence + "");
    StripFencesClosingFence("");
    assert b + "" == b;
  }

  /** A code block with any other tag, or none, loses only its backticks:
      the tag line stays in front of the body. */
  lemma SanitizeOtherFenced(b: string)
    requires forall i :: 0 <= i < |b| ==> b[i] != '`'
    requires !TagAt(b, 0)
    ensures Sanitize(Fence + b + NewlineFence) == Trim(b)
  {
    assert Fence + b + NewlineFence == Fence + (b + (NewlineFence + ""));
    StripFencesOtherFence(b + (NewlineFence + ""));
    StripFencesNoBacktickPrefix(b, NewlineFence + "");
    StripFencesClosingFence("");
    assert b + "" == b;
  }

  /** "```json\n[1,2]\n```" sanitizes to the bare array "[1,2]". */
  lemma SanitizeJsonFence(b: string)
    requires b == "[1,2]"
    ensures Sanitize(FenceJsonNewline + b + NewlineFence) == b
  {
    ExampleBody(b);
    SanitizeJsonFenced(b);
    TrimKeepsTrimmed(b);
  }

  /** Only the json tag is part of the pattern: "```js\n[1]\n```" loses its
      backticks and keeps its tag, giving "js\n[1]". */
  lemma SanitizeOtherTag(b: string)
    requires b == "js\n[1]"
    ensures Sanitize(Fence + b + NewlineFence) == b
  {
    ExampleBody(b);
    assert b[2] != 'o';
    SanitizeOtherFenced(b);
    TrimKeepsTrimmed(b);
  }

  /** The bodies of the two examples contain no backtick and neither begin
      nor end with white space. */
  lemma ExampleBody(b: string)
    requires b == "[1,2]" || b == "js\n[1]"
    ensures forall i :: 0 <= i < |b| ==> b[i] != '`'
    ensures Trimmed(b)
  {
    VisibleAsciiNotWhitespace(b[0]);
    VisibleAsciiNotWhitespace(b[|b| - 1]);
  }

  /** The first pass over the non-idempotence witness: the newline-fence in
      the middle goes, and the backticks around it close up. */
  lemma StripFencesJoinsBackticks(s: string)
    requires s == "``\n````"
    ensures StripFences(s) == Fence
  {
    OpeningTicksKept(s);
    StripFencesKeptRun(s, 2);
    StripFencesTrailingTick(s[2..]);
    assert s[..2] + "`" == Fence;
  }

  /** The two backticks that open the witness are kept: neither starts a
      match. */
  lemma OpeningTicksKept(s: string)
    requires s == "``\n````"
    ensures forall k :: 0 <= k < 2 ==> MatchLength(s[k..]) == 0
  {
    assert MatchLength(s[0..]) == 0 by { assert s[0..] == s && s[2] == '\n'; }
    assert MatchLength(s[1..]) == 0 by { assert s[1..][0] == '`' && s[1..][1] == '\n'; }
  }

  /** After the two opening backticks: the newline-fence goes and one
      backtick stays. */
  lemma StripFencesTrailingTick(t: string)
    requires t == NewlineFence + "`"
    ensures StripFences(t) == "`"
  {
    StripFencesClosingFence("`");
    StripFencesKept("`");
    assert "`"[1..] == "";
  }

  /** A bare fence is removed entirely. */
  lemma StripFencesBareFence(f: string)
    requires f == Fence
    ensures StripFences(f) == ""
  {
    assert f == Fence + "";
    StripFencesOtherFence("");
  }

  /** Sanitizing is not idempotent: removing a newline-fence can bring
      backticks on either side of it together into a new fence, which a
      second pass removes. */
  lemma SanitizeNotIdempotent(s: string)
    requires s == "``\n````"
    ensures Sanitize(s) == Fence
    ensures Sanitize(Sanitize(s)) == ""
    ensures Sanitize(Sanitize(s)) != Sanitize(s)
  {
    SanitizeWitness(s);
    SanitizeBareFence(Fence);
  }

  /** The first pass over the non-idempotence witness. */
  lemma SanitizeWitness(s: string)
    requires s == "``\n````"
    ensures Sanitize(s) == Fence
  {
    StripFencesJoinsBackticks(s);
    TrimKeepsTrimmed(Fence);
  }

  /** The second pass: a bare fence sanitizes to nothing. */
  lemma SanitizeBareFence(f: string)
    requires f == Fence
    ensures Sanitize(f) == ""
  {
    StripFencesBareFence(f);
  }

  /** The replacement as the matcher runs it: a cursor moves from left to
      right over the text still to scan, skipping over each match it finds
      and copying every other character to the output. */
  method ReplaceFences(s: string) returns (r: string)
    ensures r == StripFences(s)
  {
    r := "";
    var rest := s;
    while |rest| > 0
      invariant r + StripFences(rest) == StripFences(s)
      decreases |rest|
    {
      var n := MatchLength(rest);
      if n == 0 {
        ReplaceKeptStep(rest, r);
        r, rest := r + [rest[0]], rest[1..];
      } else {
        StripFencesRemoved(rest);
        rest := rest[n..];
      }
    }
    assert rest == [];
  }

  /** A loop step that copies a character keeps the loop invariant. */
  lemma ReplaceKeptStep(s: string, r: string)
    requires |s| > 0 && MatchLength(s) == 0
    ensures r + StripFences(s) == (r + [s[0]]) + StripFences(s[1..])
  {
    StripFencesKept(s);
  }
}
