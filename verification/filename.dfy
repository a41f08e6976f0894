/**
 * `secure_filename` (utils.py): turns a user-typed case name into a name that
 * is safe as a directory and file name. Modelled without the random suffix
 * (`allow_uuid_suffix=False`, the default every caller uses).
 */
module SecureName {
  import opened PyText
  import Sequences

  /** Characters `[^\w.\- ]` does NOT match, on ASCII text: the ones that survive filtering. */
  predicate Kept(c: char) {
    IsWordChar(c) || c == '.' || c == '-' || c == ' '
  }

  /** Characters a sanitised name is made of. */
  predicate IsSafeChar(c: char) {
    IsWordChar(c) || c == '.' || c == '-'
  }

  /** The characters `.strip("._")` removes from both ends. */
  predicate IsEdgeChar(c: char) {
    c == '.' || c == '_'
  }

  /** Text made of safe characters only. */
  predicate AllSafe(s: string) {
    forall i :: 0 <= i < |s| ==> IsSafeChar(s[i])
  }

  /** What every result of `SecureFilename` looks like. */
  predicate IsSecure(s: string) {
    && s != []
    && AllSafe(s)
    && !IsEdgeChar(s[0])
    && !IsEdgeChar(s[|s| - 1])
  }

  /** `.encode("ascii", "ignore").decode("ascii")`: non-ASCII characters are dropped. */
  function AsciiOnly(s: string): (r: string)
    ensures forall i :: 0 <= i < |r| ==> IsAscii(r[i])
    ensures (forall i :: 0 <= i < |s| ==> IsAscii(s[i])) ==> r == s
    ensures |r| <= |s|
  {
    if s == [] then []
    else if IsAscii(s[0]) then [s[0]] + AsciiOnly(s[1..])
    else AsciiOnly(s[1..])
  }

  /** `re.sub(r"[^\w.\- ]", "", value)` on ASCII text. */
  function RemoveDisallowed(s: string): (r: string)
    ensures forall i :: 0 <= i < |r| ==> Kept(r[i])
    ensures forall c :: c in r <==> c in s && Kept(c)
    ensures |r| <= |s|
  {
    if s == [] then []
    else if Kept(s[0]) then [s[0]] + RemoveDisallowed(s[1..])
    else RemoveDisallowed(s[1..])
  }

  /** `re.sub(r"\s+", "_", value)`: every maximal run of whitespace becomes one `_`. */
  function CollapseWhitespace(s: string): string {
    CollapseFrom(s, false)
  }

  /** The substitution scanner; `inRun` says the previous character was whitespace already replaced. */
  function CollapseFrom(s: string, inRun: bool): string {
    if s == [] then []
    else if IsSpace(s[0]) then (if inRun then [] else "_") + CollapseFrom(s[1..], true)
    else [s[0]] + CollapseFrom(s[1..], false)
  }

  /** Whether the scanner is inside a run of whitespace after reading `s`. */
  function RunStateAfter(s: string, inRun: bool): bool {
    if s == [] then inRun else IsSpace(s[|s| - 1])
  }

  /** `secure_filename(value)` with `allow_uuid_suffix=False`. */
  function SecureFilename(value: string): (r: string)
    ensures IsSecure(r)
  {
    var filtered := RemoveDisallowed(AsciiOnly(value));
    var collapsed := CollapseWhitespace(filtered);
    CollapseKeepsSafe(filtered, false);
    var trimmed := Strip(collapsed, IsEdgeChar);
    StripKeepsSafe(collapsed);
    if trimmed == [] then "file" else trimmed
  }

  /** Helper: collapsing filtered text leaves only safe characters. */
  lemma {:induction false} CollapseKeepsSafe(s: string, inRun: bool)
    requires forall i :: 0 <= i < |s| ==> Kept(s[i])
    ensures AllSafe(CollapseFrom(s, inRun))
  {
    if s != [] {
      CollapseKeepsSafe(s[1..], IsSpace(s[0]));
    }
  }

  /** Helper: a slice of safe text is safe. */
  lemma AllSafeSlice(s: string, a: nat, b: nat)
    requires AllSafe(s) && a <= b <= |s|
    ensures AllSafe(s[a..b])
  {
    forall i | 0 <= i < b - a
      ensures IsSafeChar(s[a..b][i])
    {
      assert s[a..b][i] == s[a + i];
    }
  }

  /** Helper: trimming `.` and `_` keeps safe characters safe and leaves neither at an end. */
  lemma StripKeepsSafe(s: string)
    requires AllSafe(s)
    ensures var r := Strip(s, IsEdgeChar);
      && AllSafe(r)
      && (r == [] || (!IsEdgeChar(r[0]) && !IsEdgeChar(r[|r| - 1])))
  {
    var l := LStrip(s, IsEdgeChar);
    AllSafeSlice(s, |s| - |l|, |s|);
    var r := RStrip(l, IsEdgeChar);
    AllSafeSlice(l, 0, |r|);
    assert r == [] || r[0] == l[0];
  }

  /** Filtering works character by character, so the surviving characters keep their order. */
  lemma {:induction false} RemoveDisallowedAppend(a: string, b: string)
    ensures RemoveDisallowed(a + b) == RemoveDisallowed(a) + RemoveDisallowed(b)
  {
    if a == [] {
      assert a + b == b;
    } else {
      assert (a + b)[1..] == a[1..] + b;
      RemoveDisallowedAppend(a[1..], b);
    }
  }

  /** Text without whitespace passes the scanner unchanged. */
  lemma {:induction false} CollapseNoWhitespace(s: string, inRun: bool)
    requires forall i :: 0 <= i < |s| ==> !IsSpace(s[i])
    ensures CollapseFrom(s, inRun) == s
  {
    if s != [] {
      CollapseNoWhitespace(s[1..], false);
    }
  }

  /** The scanner splits over a concatenation, carrying its run state across. */
  lemma {:induction false} CollapseAppend(x: string, y: string, inRun: bool)
    ensures CollapseFrom(x + y, inRun) == CollapseFrom(x, inRun) + CollapseFrom(y, RunStateAfter(x, inRun))
  {
    if x == [] {
      assert x + y == y;
    } else {
      assert (x + y)[0] == x[0];
      assert (x + y)[1..] == x[1..] + y;
      CollapseAppend(x[1..], y, IsSpace(x[0]));
      RunStateTail(x, inRun);
    }
  }

  /** Helper: the run state after `x` is the one after its tail, started from its first character. */
  lemma RunStateTail(x: string, inRun: bool)
    requires x != []
    ensures RunStateAfter(x[1..], IsSpace(x[0])) == RunStateAfter(x, inRun)
  {
    if x[1..] != [] {
      assert x[1..][|x[1..]| - 1] == x[|x| - 1];
    }
  }

  /** A non-empty run of whitespace alone becomes one `_`, or nothing inside a run. */
  lemma {:induction false} CollapseAllSpace(run: string, inRun: bool)
    requires forall i :: 0 <= i < |run| ==> IsSpace(run[i])
    ensures CollapseFrom(run, inRun) == if run != [] && !inRun then "_" else []
  {
    if run != [] {
      CollapseAllSpace(run[1..], true);
    }
  }

  /**
   * A maximal run of whitespace between two pieces of text becomes exactly
   * one `_`, and the pieces on either side are collapsed independently.
   */
  lemma CollapseRun(before: string, run: string, after: string)
    requires run != [] && forall i :: 0 <= i < |run| ==> IsSpace(run[i])
    requires before == [] || !IsSpace(before[|before| - 1])
    requires after == [] || !IsSpace(after[0])
    ensures CollapseWhitespace(before + run + after)
         == CollapseWhitespace(before) + "_" + CollapseWhitespace(after)
  {
    CollapseAppend(before + run, after, false);
    CollapseAppend(before, run, false);
    assert RunStateAfter(before, false) == false;
    CollapseAllSpace(run, false);
    assert (before + run)[|before + run| - 1] == run[|run| - 1];
    if after != [] {
      assert CollapseFrom(after, true) == [after[0]] + CollapseFrom(after[1..], false);
    }
  }

  /** Letters, digits and `-`: the characters no step of the sanitiser removes or changes. */
  predicate IsEssential(c: char) {
    IsAsciiLetter(c) || IsAsciiDigit(c) || c == '-'
  }

  /** The letters, digits and `-` of `s`, in order. */
  function Essential(s: string): string {
    if s == [] then [] else (if IsEssential(s[0]) then [s[0]] else []) + Essential(s[1..])
  }

  /** Helper: the essential characters of a concatenation. */
  lemma {:induction false} EssentialAppend(a: string, b: string)
    ensures Essential(a + b) == Essential(a) + Essential(b)
  {
    if a == [] {
      assert a + b == b;
    } else {
      var h := if IsEssential(a[0]) then [a[0]] else [];
      assert (a + b)[1..] == a[1..] + b;
      assert Essential(a + b) == h + Essential(a[1..] + b);
      EssentialAppend(a[1..], b);
      Sequences.AppendAssoc(h, Essential(a[1..]), Essential(b));
    }
  }

  /** Helper: text made only of `.` and `_` has no essential character. */
  lemma {:induction false} EssentialOfEdgeChars(s: string)
    requires forall i :: 0 <= i < |s| ==> IsEdgeChar(s[i])
    ensures Essential(s) == []
  {
    if s != [] {
      EssentialOfEdgeChars(s[1..]);
    }
  }

  /** The filter keeps every letter, digit and `-`, in order. */
  lemma {:induction false} RemoveDisallowedKeepsEssential(s: string)
    ensures Essential(RemoveDisallowed(s)) == Essential(s)
  {
    if s != [] {
      RemoveDisallowedKeepsEssential(s[1..]);
      if Kept(s[0]) {
        var r := [s[0]] + RemoveDisallowed(s[1..]);
        assert r[0] == s[0] && r[1..] == RemoveDisallowed(s[1..]);
      }
    }
  }

  /** Collapsing whitespace keeps every letter, digit and `-`, in order. */
  lemma {:induction false} CollapseKeepsEssential(s: string, inRun: bool)
    ensures Essential(CollapseFrom(s, inRun)) == Essential(s)
  {
    if s != [] {
      CollapseKeepsEssential(s[1..], IsSpace(s[0]));
      var head := if IsSpace(s[0]) then (if inRun then [] else "_") else [s[0]];
      assert CollapseFrom(s, inRun) == head + CollapseFrom(s[1..], IsSpace(s[0]));
      EssentialAppend(head, CollapseFrom(s[1..], IsSpace(s[0])));
      if head == "_" {
        assert Essential(head) == [] + Essential(head[1..]);
      }
    }
  }

  /** `.strip("._")` keeps every letter, digit and `-`, in order. */
  lemma StripKeepsEssential(s: string)
    ensures Essential(Strip(s, IsEdgeChar)) == Essential(s)
  {
    LStripKeepsEssential(s);
    RStripKeepsEssential(LStrip(s, IsEdgeChar));
  }

  /** Helper: the leading `.` and `_` hold no essential character. */
  lemma LStripKeepsEssential(s: string)
    ensures Essential(LStrip(s, IsEdgeChar)) == Essential(s)
  {
    var l := LStrip(s, IsEdgeChar);
    DropEdgePrefix(s, |s| - |l|);
  }

  /** Helper: dropping a prefix of `.` and `_` keeps the essential characters. */
  lemma {:induction false} DropEdgePrefix(s: string, k: nat)
    requires k <= |s| && forall i :: 0 <= i < k ==> IsEdgeChar(s[i])
    ensures Essential(s[k..]) == Essential(s)
  {
    if k == 0 {
      assert s[0..] == s;
    } else {
      assert s[1..][k - 1..] == s[k..];
      DropEdgePrefix(s[1..], k - 1);
    }
  }

  /** Helper: the trailing `.` and `_` hold no essential character. */
  lemma RStripKeepsEssential(s: string)
    ensures Essential(RStrip(s, IsEdgeChar)) == Essential(s)
  {
    var r := RStrip(s, IsEdgeChar);
    DropEdgeSuffix(s, |r|);
  }

  /** Helper: dropping a suffix of `.` and `_` keeps the essential characters. */
  lemma DropEdgeSuffix(s: string, k: nat)
    requires k <= |s| && forall i :: k <= i < |s| ==> IsEdgeChar(s[i])
    ensures Essential(s[..k]) == Essential(s)
  {
    var q := s[k..];
    forall i | 0 <= i < |q|
      ensures IsEdgeChar(q[i])
    {
      assert q[i] == s[k + i];
    }
    EssentialOfEdgeChars(q);
    assert s == s[..k] + q;
    EssentialAppend(s[..k], q);
  }

  /** Helper: trimmed safe text that is not empty starts with an essential character. */
  lemma TrimmedStartsEssential(t: string)
    requires AllSafe(t) && t != [] && !IsEdgeChar(t[0])
    ensures Essential(t) != []
  {
    assert IsSafeChar(t[0]);
  }

  /**
   * The sanitiser keeps the input's ASCII letters, digits and `-`, in
   * order, and falls back to `"file"` exactly when the input has none.
   */
  lemma SecureFilenameKeepsEssential(value: string)
    ensures Essential(AsciiOnly(value)) == [] ==> SecureFilename(value) == "file"
    ensures Essential(AsciiOnly(value)) != [] ==> Essential(SecureFilename(value)) == Essential(AsciiOnly(value))
  {
    var filtered := RemoveDisallowed(AsciiOnly(value));
    var collapsed := CollapseWhitespace(filtered);
    var trimmed := Strip(collapsed, IsEdgeChar);
    RemoveDisallowedKeepsEssential(AsciiOnly(value));
    CollapseKeepsEssential(filtered, false);
    StripKeepsEssential(collapsed);
    CollapseKeepsSafe(filtered, false);
    StripKeepsSafe(collapsed);
    if trimmed != [] {
      TrimmedStartsEssential(trimmed);
    }
  }

  /** An already secure name is its own sanitised form. */
  lemma SecureIsFixedPoint(s: string)
    requires IsSecure(s)
    ensures SecureFilename(s) == s
  {
    SecureTextPassesSteps(s);
    StripSecure(s);
  }

  /** Helper: secure text passes the ASCII filter, the character filter and the whitespace substitution unchanged. */
  lemma SecureTextPassesSteps(s: string)
    requires IsSecure(s)
    ensures CollapseWhitespace(RemoveDisallowed(AsciiOnly(s))) == s
  {
    assert forall i :: 0 <= i < |s| ==> IsAscii(s[i]);
    assert AsciiOnly(s) == s;
    RemoveDisallowedKeepsKept(s);
    CollapseNoWhitespace(s, false);
  }

  /** Helper: secure text has nothing for `.strip("._")` to remove. */
  lemma StripSecure(s: string)
    requires IsSecure(s)
    ensures Strip(s, IsEdgeChar) == s
  {
    StripTrailing(s, [], IsEdgeChar);
    assert s + [] == s;
  }

  /** Helper: text made only of kept characters passes the filter unchanged. */
  lemma {:induction false} RemoveDisallowedKeepsKept(s: string)
    requires forall i :: 0 <= i < |s| ==> Kept(s[i])
    ensures RemoveDisallowed(s) == s
  {
    if s != [] {
      RemoveDisallowedKeepsKept(s[1..]);
    }
  }

  /**
   * Sanitising twice is sanitising once; the pages re-sanitise the name the
   * entry page already sanitised and stored.
   */
  lemma Idempotent(value: string)
    ensures SecureFilename(SecureFilename(value)) == SecureFilename(value)
  {
    SecureIsFixedPoint(SecureFilename(value));
  }
}
