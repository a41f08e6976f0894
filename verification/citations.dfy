/**
 * `cit_claim` (pages/5_Communication.py): marks every listed feature in the
 * text of claim 1 with a placeholder citation and breaks the text into lines
 * for the examiner communication. The four `re.sub` calls are modelled as
 * left-to-right scanners over the text; the feature list, a module global in
 * the source, is a parameter.
 */
module Citations {
  import opened Wrappers
  import opened PyText

  /** The citation appended after each matched feature. */
  const Citation: string := " (D1: abstr., fig., page )"

  /** The punctuation class `[.,;:]`. */
  predicate IsClausePunct(c: char) {
    c == '.' || c == ',' || c == ';' || c == ':'
  }

  // ---------------------------------------------------------------------
  // Step 1: re.sub(r'\b(f1|f2|...)\b', replacement, text)
  // ---------------------------------------------------------------------

  /** A word character at index `i` (positions outside the text are not word characters). */
  predicate WordAt(text: string, i: int) {
    0 <= i < |text| && IsWordChar(text[i])
  }

  /** `\b` at position `p`: a word character on exactly one side. */
  predicate Boundary(text: string, p: int) {
    WordAt(text, p - 1) != WordAt(text, p)
  }

  /** Feature `f` occurs at `p`, with a word boundary on both sides. */
  predicate Fits(text: string, f: string, p: int) {
    && 0 <= p && p + |f| <= |text|
    && text[p..p + |f|] == f
    && Boundary(text, p)
    && Boundary(text, p + |f|)
  }

  /** A fit the scanner may take: right after an empty match, an empty match is refused. */
  predicate Admissible(text: string, f: string, p: int, allowEmpty: bool) {
    Fits(text, f, p) && (allowEmpty || |f| > 0)
  }

  /** The alternatives of the pattern; with no features it is `\b()\b`, one empty alternative. */
  function Alternatives(features: seq<string>): (alts: seq<string>)
    ensures |alts| > 0
    ensures features != [] ==> alts == features
    ensures features == [] ==> alts == [""]
  {
    if features == [] then [""] else features
  }

  /**
   * The alternation tried at `p`: the index of the first alternative, from
   * `from` on, that the scanner may take there.
   */
  function FirstFit(text: string, alts: seq<string>, p: int, allowEmpty: bool, from: nat): (r: Option<nat>)
    requires from <= |alts|
    ensures r.Some? ==> from <= r.value < |alts| && Admissible(text, alts[r.value], p, allowEmpty)
    decreases |alts| - from
  {
    if from == |alts| then None
    else if Admissible(text, alts[from], p, allowEmpty) then Some(from)
    else FirstFit(text, alts, p, allowEmpty, from + 1)
  }

  /** The alternation takes the first alternative in list order that fits, and fails only when none does. */
  lemma {:induction false} FirstFitIsFirst(text: string, alts: seq<string>, p: int, allowEmpty: bool, from: nat)
    requires from <= |alts|
    ensures var r := FirstFit(text, alts, p, allowEmpty, from);
      && (r.Some? ==> forall j :: from <= j < r.value ==> !Admissible(text, alts[j], p, allowEmpty))
      && (r.None? ==> forall j :: from <= j < |alts| ==> !Admissible(text, alts[j], p, allowEmpty))
    decreases |alts| - from
  {
    if from < |alts| && !Admissible(text, alts[from], p, allowEmpty) {
      FirstFitIsFirst(text, alts, p, allowEmpty, from + 1);
    }
  }

  /** What the substitution sees: a character copied as is, or a matched feature. */
  datatype Piece = Copied(c: char) | Matched(feature: string)

  /** The original text a piece covers. */
  function Covered(pc: Piece): string {
    match pc
    case Copied(c) => [c]
    case Matched(f) => f
  }

  /** The original text a run of pieces covers. */
  function Source(ps: seq<Piece>): string {
    if ps == [] then [] else Covered(ps[0]) + Source(ps[1..])
  }

  /**
   * A piece the regex engine produces at position `q`: a matched piece is a
   * listed feature occurring at `q` between word boundaries; a copied piece is
   * the character at `q`, where no non-empty feature fits.
   */
  predicate PieceAt(text: string, alts: seq<string>, pc: Piece, q: int) {
    && (pc.Matched? ==> pc.feature in alts && Fits(text, pc.feature, q))
    && (pc.Copied? ==> 0 <= q < |text| && pc.c == text[q]
                       && forall f :: f in alts && |f| > 0 ==> !Fits(text, f, q))
  }

  /**
   * One search of `re.sub` at `p`: the first admissible alternative is
   * matched and the scan resumes after it; otherwise the character at `p` is
   * copied. After an empty match the next search starts at the same position
   * but may not match empty there (`mustAdvance`). Gives the piece, where the
   * scan resumes, and whether it must advance there; `None` at the end.
   */
  function ScanStep(text: string, alts: seq<string>, p: nat, mustAdvance: bool): (r: Option<(Piece, nat, bool)>)
    requires p <= |text|
    ensures r.None? ==> p == |text|
    ensures r.Some? ==> p <= r.value.1 <= |text| && Covered(r.value.0) == text[p..r.value.1]
    ensures r.Some? && r.value.1 == p ==> !mustAdvance && r.value.2
  {
    match FirstFit(text, alts, p, !mustAdvance, 0)
    case Some(i) => Some((Matched(alts[i]), p + |alts[i]|, |alts[i]| == 0))
    case None => if p == |text| then None else Some((Copied(text[p]), p + 1, false))
  }

  /** The piece of one search is a genuine match, or a copy where no non-empty feature fits. */
  lemma ScanStepIsMatch(text: string, alts: seq<string>, p: nat, mustAdvance: bool)
    requires p <= |text|
    ensures var r := ScanStep(text, alts, p, mustAdvance);
      r.Some? ==> PieceAt(text, alts, r.value.0, p)
  {
    var r := ScanStep(text, alts, p, mustAdvance);
    FirstFitIsFirst(text, alts, p, !mustAdvance, 0);
    if r.Some? && r.value.0.Copied? {
      assert text[p..p + 1] == [r.value.0.c];
    }
  }

  /** The pieces `re.sub` sees from `p` on. */
  function Scan(text: string, alts: seq<string>, p: nat, mustAdvance: bool): seq<Piece>
    requires p <= |text|
    decreases |text| - p, if mustAdvance then 0 else 1
  {
    match ScanStep(text, alts, p, mustAdvance)
    case None => []
    case Some((pc, next, advance)) => [pc] + Scan(text, alts, next, advance)
  }

  /**
   * The replacement callback: the matched text followed by the citation. It
   * looks at the character after the match, but both branches give the same.
   */
  function Replacement(text: string, matched: string, matchEnd: int): (r: string)
    ensures r == matched + Citation
  {
    if matchEnd < |text| && 0 <= matchEnd && IsClausePunct(text[matchEnd]) then matched + Citation
    else matched + Citation
  }

  /** The output of the substitution for pieces starting at position `pos` of `text`. */
  function Render(text: string, ps: seq<Piece>, pos: int): string {
    if ps == [] then []
    else match ps[0]
      case Copied(c) => [c] + Render(text, ps[1..], pos + 1)
      case Matched(f) => Replacement(text, f, pos + |f|) + Render(text, ps[1..], pos + |f|)
  }

  /** The same output stated piece by piece: copied characters, and each feature with its citation. */
  function Annotate(ps: seq<Piece>): string {
    if ps == [] then []
    else match ps[0]
      case Copied(c) => [c] + Annotate(ps[1..])
      case Matched(f) => f + Citation + Annotate(ps[1..])
  }

  /** Step 1: the citation substitution. */
  function InjectCitations(text: string, features: seq<string>): string {
    Render(text, Scan(text, Alternatives(features), 0, false), 0)
  }

  lemma {:induction false} SourceAppend(a: seq<Piece>, b: seq<Piece>)
    ensures Source(a + b) == Source(a) + Source(b)
  {
    if a == [] {
      assert a + b == b;
    } else {
      assert (a + b)[1..] == a[1..] + b;
      SourceAppend(a[1..], b);
    }
  }

  /** Round trip: dropping the citations gives back exactly the text scanned. */
  lemma {:induction false} ScanCoversText(text: string, alts: seq<string>, p: nat, mustAdvance: bool)
    requires p <= |text|
    ensures Source(Scan(text, alts, p, mustAdvance)) == text[p..]
    decreases |text| - p, if mustAdvance then 0 else 1
  {
    var step := ScanStep(text, alts, p, mustAdvance);
    if step.Some? {
      var (pc, next, advance) := step.value;
      var rest := Scan(text, alts, next, advance);
      ScanCoversText(text, alts, next, advance);
      assert Scan(text, alts, p, mustAdvance) == [pc] + rest;
      assert Source([pc] + rest) == Covered(pc) + Source(rest);
      assert text[p..] == text[p..next] + text[next..];
    }
  }

  /** Each piece is genuine at the position the pieces before it have covered, starting at `q`. */
  predicate Genuine(text: string, alts: seq<string>, ps: seq<Piece>, q: int) {
    ps == [] || (PieceAt(text, alts, ps[0], q) && Genuine(text, alts, ps[1..], q + |Covered(ps[0])|))
  }

  /** Every piece of the scan is a genuine match, or a copy where no non-empty feature fits. */
  lemma {:induction false} ScanIsGenuine(text: string, alts: seq<string>, p: nat, mustAdvance: bool)
    requires p <= |text|
    ensures Genuine(text, alts, Scan(text, alts, p, mustAdvance), p)
    decreases |text| - p, if mustAdvance then 0 else 1
  {
    var step := ScanStep(text, alts, p, mustAdvance);
    if step.Some? {
      ScanStepIsMatch(text, alts, p, mustAdvance);
      ScanIsGenuine(text, alts, step.value.1, step.value.2);
    }
  }

  /** The output is the scanned text with the citation after every matched feature. */
  lemma {:induction false} RenderAnnotates(text: string, ps: seq<Piece>, pos: int)
    ensures Render(text, ps, pos) == Annotate(ps)
  {
    if ps != [] {
      match ps[0]
      case Copied(c) => RenderAnnotates(text, ps[1..], pos + 1);
      case Matched(f) => RenderAnnotates(text, ps[1..], pos + |f|);
    }
  }

  /**
   * Step 1 as a whole: the text is cut into genuine pieces that cover it
   * exactly, and the output is those pieces with the citation after every
   * matched feature.
   */
  lemma InjectCitationsSpec(text: string, features: seq<string>)
    ensures var alts := Alternatives(features);
      var ps := Scan(text, alts, 0, false);
      && Source(ps) == text
      && Genuine(text, alts, ps, 0)
      && InjectCitations(text, features) == Annotate(ps)
  {
    var alts := Alternatives(features);
    ScanCoversText(text, alts, 0, false);
    assert text[0..] == text;
    ScanIsGenuine(text, alts, 0, false);
    RenderAnnotates(text, Scan(text, alts, 0, false), 0);
  }

  // ---------------------------------------------------------------------
  // Step 2: re.sub(r"^[^a-zA-Z]+", "", text)
  // ---------------------------------------------------------------------

  predicate IsNotLetter(c: char) {
    !IsAsciiLetter(c)
  }

  /** Drops the leading run of characters that are not ASCII letters. */
  function DropLeadingNonLetters(s: string): string {
    LStrip(s, IsNotLetter)
  }

  // ---------------------------------------------------------------------
  // Step 3: re.sub(r"\)([.,;:]?)", r")\1\n", text)
  // ---------------------------------------------------------------------

  /** A line break after every `)`, or after the one punctuation mark that follows it. */
  function BreakAfterParens(s: string): string
    decreases |s|
  {
    if s == [] then []
    else if s[0] == ')' then
      if |s| > 1 && IsClausePunct(s[1]) then [')', s[1], '\n'] + BreakAfterParens(s[2..])
      else [')', '\n'] + BreakAfterParens(s[1..])
    else [s[0]] + BreakAfterParens(s[1..])
  }

  /** Every `)` is followed by at most one of `.,;:` and then a line break. */
  predicate ParensBroken(t: string) {
    forall i :: 0 <= i < |t| && t[i] == ')' ==>
      (i + 1 < |t| && t[i + 1] == '\n')
      || (i + 2 < |t| && IsClausePunct(t[i + 1]) && t[i + 2] == '\n')
  }

  /** The inverse of `BreakAfterParens`: removes the line break it put after each `)`. */
  function JoinAfterParens(t: string): string
    decreases |t|
  {
    if t == [] then []
    else if t[0] == ')' then
      if |t| > 2 && IsClausePunct(t[1]) && t[2] == '\n' then [')', t[1]] + JoinAfterParens(t[3..])
      else if |t| > 1 && t[1] == '\n' then [')'] + JoinAfterParens(t[2..])
      else [t[0]] + JoinAfterParens(t[1..])
    else [t[0]] + JoinAfterParens(t[1..])
  }

  /** Breaking after parentheses only inserts line breaks: joining them again restores the text. */
  lemma {:induction false} BreakAfterParensRoundTrip(s: string)
    ensures JoinAfterParens(BreakAfterParens(s)) == s
    decreases |s|
  {
    if s == [] {
    } else if s[0] == ')' {
      if |s| > 1 && IsClausePunct(s[1]) {
        var t := [')', s[1], '\n'] + BreakAfterParens(s[2..]);
        assert t[3..] == BreakAfterParens(s[2..]);
        BreakAfterParensRoundTrip(s[2..]);
        assert s == [')', s[1]] + s[2..];
      } else {
        var t := [')', '\n'] + BreakAfterParens(s[1..]);
        assert !(|t| > 2 && IsClausePunct(t[1]));
        assert t[2..] == BreakAfterParens(s[1..]);
        BreakAfterParensRoundTrip(s[1..]);
        assert s == [')'] + s[1..];
      }
    } else {
      var t := [s[0]] + BreakAfterParens(s[1..]);
      assert t[1..] == BreakAfterParens(s[1..]);
      BreakAfterParensRoundTrip(s[1..]);
      assert s == [s[0]] + s[1..];
    }
  }

  /** Helper: the property is kept by concatenation, since each `)` is settled inside its own part. */
  lemma ParensBrokenAppend(a: string, b: string)
    requires ParensBroken(a) && ParensBroken(b)
    ensures ParensBroken(a + b)
  {
    var t := a + b;
    forall i | 0 <= i < |t| && t[i] == ')'
      ensures (i + 1 < |t| && t[i + 1] == '\n')
           || (i + 2 < |t| && IsClausePunct(t[i + 1]) && t[i + 2] == '\n')
    {
      if i < |a| {
        assert a[i] == ')';
        assert (i + 1 < |a| && a[i + 1] == '\n') || (i + 2 < |a| && IsClausePunct(a[i + 1]) && a[i + 2] == '\n');
        if i + 1 < |a| && a[i + 1] == '\n' {
          assert t[i + 1] == a[i + 1];
        } else {
          assert t[i + 1] == a[i + 1] && t[i + 2] == a[i + 2];
        }
      } else {
        var j := i - |a|;
        assert b[j] == ')';
        assert (j + 1 < |b| && b[j + 1] == '\n') || (j + 2 < |b| && IsClausePunct(b[j + 1]) && b[j + 2] == '\n');
        if j + 1 < |b| && b[j + 1] == '\n' {
          assert t[i + 1] == b[j + 1];
        } else {
          assert t[i + 1] == b[j + 1] && t[i + 2] == b[j + 2];
        }
      }
    }
  }

  /** After step 3 every `)` ends its line, possibly after one punctuation mark. */
  lemma {:induction false} BreakAfterParensBreaks(s: string)
    ensures ParensBroken(BreakAfterParens(s))
    decreases |s|
  {
    if s != [] {
      var head: string, rest: string;
      if s[0] == ')' {
        if |s| > 1 && IsClausePunct(s[1]) {
          head, rest := [')', s[1], '\n'], s[2..];
        } else {
          head, rest := [')', '\n'], s[1..];
        }
      } else {
        head, rest := [s[0]], s[1..];
      }
      BreakAfterParensBreaks(rest);
      assert ParensBroken(head);
      ParensBrokenAppend(head, BreakAfterParens(rest));
    }
  }

  /** Step 3 keeps the first character of non-empty text. */
  lemma BreakAfterParensFirst(s: string)
    requires s != []
    ensures BreakAfterParens(s) != [] && BreakAfterParens(s)[0] == s[0]
  {
  }

  // ---------------------------------------------------------------------
  // Step 4: re.sub(r"([.,;:]) (\b(?:a|an)\b )", r"\1\n\2", text)
  // ---------------------------------------------------------------------

  /**
   * The length of the match of `([.,;:]) (\b(?:a|an)\b )` at `p`, or 0. The
   * `\b` before the article always holds after a space, and the `\b` after it
   * holds whenever a space follows, so the pattern is a punctuation mark, a
   * space, then `a ` or `an `.
   */
  function ArticleMatchLength(s: string, p: nat): (n: nat)
    ensures n == 0 || n == 4 || n == 5
    ensures n > 0 ==> p + n <= |s|
  {
    if p + 4 <= |s| && IsClausePunct(s[p]) && s[p + 1] == ' ' && s[p + 2] == 'a' && s[p + 3] == ' ' then 4
    else if p + 5 <= |s| && IsClausePunct(s[p]) && s[p + 1] == ' ' && s[p + 2] == 'a' && s[p + 3] == 'n' && s[p + 4] == ' ' then 5
    else 0
  }

  /** The substitution from `p` on: the space after the punctuation mark becomes a line break. */
  function BreakBeforeArticlesFrom(s: string, p: nat): string
    decreases |s| - p
  {
    if p >= |s| then []
    else
      var n := ArticleMatchLength(s, p);
      if n > 0 then [s[p], '\n'] + s[p + 2..p + n] + BreakBeforeArticlesFrom(s, p + n)
      else [s[p]] + BreakBeforeArticlesFrom(s, p + 1)
  }

  function BreakBeforeArticles(s: string): string {
    BreakBeforeArticlesFrom(s, 0)
  }

  /** Position `i` holds the space between a punctuation mark and a standalone `a` or `an`. */
  predicate ArticleBreakAt(s: string, i: int) {
    1 <= i && ArticleMatchLength(s, i - 1) > 0
  }

  /** The character step 4 leaves at index `k` of `s`. */
  function AfterArticleBreak(s: string, k: nat): char
    requires k < |s|
  {
    if ArticleBreakAt(s, k) then '\n' else s[k]
  }

  /** Helper: the text replacing one match is right character by character. */
  lemma ArticleSpanPointwise(s: string, p: nat)
    requires ArticleMatchLength(s, p) > 0
    requires p == 0 || ArticleMatchLength(s, p - 1) == 0
    ensures var n := ArticleMatchLength(s, p);
      forall k :: p <= k < p + n ==> ([s[p], '\n'] + s[p + 2..p + n])[k - p] == AfterArticleBreak(s, k)
  {
    var n := ArticleMatchLength(s, p);
    var head := [s[p], '\n'] + s[p + 2..p + n];
    forall k | p <= k < p + n
      ensures head[k - p] == AfterArticleBreak(s, k)
    {
      if k >= p + 2 {
        assert head[k - p] == s[k];
        assert ArticleMatchLength(s, k - 1) == 0;
      }
    }
  }

  /**
   * Step 4 changes characters in place: exactly the spaces that follow a
   * punctuation mark and precede a standalone `a`/`an` and a space become line
   * breaks, and every other character stays.
   */
  lemma {:induction false} BreakBeforeArticlesPointwise(s: string, p: nat)
    requires p <= |s|
    requires p == 0 || ArticleMatchLength(s, p - 1) == 0
    ensures |BreakBeforeArticlesFrom(s, p)| == |s| - p
    ensures forall k :: p <= k < |s| ==> BreakBeforeArticlesFrom(s, p)[k - p] == AfterArticleBreak(s, k)
    decreases |s| - p
  {
    if p < |s| {
      var n := ArticleMatchLength(s, p);
      var out := BreakBeforeArticlesFrom(s, p);
      var head := if n > 0 then [s[p], '\n'] + s[p + 2..p + n] else [s[p]];
      var m := if n > 0 then n else 1;
      var rest := BreakBeforeArticlesFrom(s, p + m);
      if n > 0 {
        ArticleSpanPointwise(s, p);
        assert ArticleMatchLength(s, p + n - 1) == 0;
      }
      BreakBeforeArticlesPointwise(s, p + m);
      assert out == head + rest;
      forall k | p <= k < |s|
        ensures out[k - p] == AfterArticleBreak(s, k)
      {
        if k >= p + m {
          assert out[k - p] == rest[k - p - m];
        }
      }
    }
  }

  // ---------------------------------------------------------------------
  // The whole of cit_claim
  // ---------------------------------------------------------------------

  /** `cit_claim(comm_text)` with `cl_1_list` passed as `features`. */
  function CitClaim(text: string, features: seq<string>): string {
    var cited := InjectCitations(text, features);
    var stripped := DropLeadingNonLetters(cited);
    var parens := BreakAfterParens(stripped);
    BreakBeforeArticles(parens)
  }

  /** Helper: a `)` after step 4 was a `)` before it, and what followed it still follows. */
  lemma KeepsParensAt(t: string, i: nat)
    requires ParensBroken(t)
    requires |BreakBeforeArticles(t)| == |t|
    requires forall k :: 0 <= k < |t| ==> BreakBeforeArticles(t)[k] == AfterArticleBreak(t, k)
    requires i < |t| && BreakBeforeArticles(t)[i] == ')'
    ensures var r := BreakBeforeArticles(t);
      (i + 1 < |r| && r[i + 1] == '\n') || (i + 2 < |r| && IsClausePunct(r[i + 1]) && r[i + 2] == '\n')
  {
    var r := BreakBeforeArticles(t);
    assert r[i] == AfterArticleBreak(t, i);
    assert t[i] == ')';
    if i + 1 < |t| && t[i + 1] == '\n' {
      assert r[i + 1] == AfterArticleBreak(t, i + 1);
    } else {
      assert i + 2 < |t| && IsClausePunct(t[i + 1]) && t[i + 2] == '\n';
      assert r[i + 1] == AfterArticleBreak(t, i + 1);
      assert !ArticleBreakAt(t, i + 1);
      assert r[i + 2] == AfterArticleBreak(t, i + 2);
    }
  }

  /** Step 4 turns only spaces into line breaks, so it keeps every `)` ending its line. */
  lemma BreakBeforeArticlesKeepsParens(t: string)
    requires ParensBroken(t)
    ensures ParensBroken(BreakBeforeArticles(t))
  {
    var r := BreakBeforeArticles(t);
    BreakBeforeArticlesPointwise(t, 0);
    forall i | 0 <= i < |r| && r[i] == ')'
      ensures (i + 1 < |r| && r[i + 1] == '\n')
           || (i + 2 < |r| && IsClausePunct(r[i + 1]) && r[i + 2] == '\n')
    {
      KeepsParensAt(t, i);
    }
  }

  /** Step 4 keeps the first character: a line break goes only after a punctuation mark. */
  lemma BreakBeforeArticlesFirst(t: string)
    requires t != []
    ensures BreakBeforeArticles(t) != [] && BreakBeforeArticles(t)[0] == t[0]
  {
    BreakBeforeArticlesPointwise(t, 0);
    assert !ArticleBreakAt(t, 0);
  }

  /**
   * The final text is empty or starts with a letter, and every `)` in it,
   * including that of each citation, ends its line after at most one
   * punctuation mark.
   */
  lemma CitClaimShape(text: string, features: seq<string>)
    ensures var r := CitClaim(text, features);
      && (r == [] || IsAsciiLetter(r[0]))
      && ParensBroken(r)
  {
    var stripped := DropLeadingNonLetters(InjectCitations(text, features));
    var parens := BreakAfterParens(stripped);
    BreakAfterParensBreaks(stripped);
    BreakBeforeArticlesKeepsParens(parens);
    if stripped != [] {
      BreakAfterParensFirst(stripped);
      BreakBeforeArticlesFirst(parens);
    } else {
      assert parens == [];
    }
  }
}
