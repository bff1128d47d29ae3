/**
 * The contact form's "enhance message" action: `enhanceMessageText` rewrites a
 * message in five fixed steps, each a regular-expression test or replacement,
 * and `enhanceMessage` applies it to the trimmed message unless that is blank.
 * Each step is one function here; the pipeline is their composition.
 */
module MessageEnhancer {
  import opened Options
  import opened Text

  // ---------------------------------------------------------------------------
  // Step 1: `/^(hi|hello|hey|good|greetings)/i`, lead-in when it fails
  // ---------------------------------------------------------------------------

  /** "I'm reaching out regarding a design project. ", written word by word. */
  const LeadIn: string := "I'm " + "reaching " + "out " + "regarding " + "a " + "design " + "project. "

  const Greetings: seq<string> := ["hi", "hello", "hey", "good", "greetings"]

  /** The text begins, ignoring ASCII case, with one of the greeting words.
      This is a prefix test only: "history" passes because of "hi". */
  predicate StartsWithGreeting(s: string)
  {
    exists g :: g in Greetings && OccursAt(Lower(s), g, 0)
  }

  /** Step 1: prepend the lead-in unless the text opens with a greeting. */
  function AddLeadIn(s: string): (r: string)
    ensures r == LeadIn + s <==> !StartsWithGreeting(s)
    ensures StartsWithGreeting(s) ==> r == s
  {
    if StartsWithGreeting(s) then s else LeadIn + s
  }

  // ---------------------------------------------------------------------------
  // Step 2: `replace(/([^.!?])\s*$/m, "$1.")`, the leftmost match only
  // ---------------------------------------------------------------------------

  predicate IsTerminalPunct(c: char)
  {
    c == '.' || c == '!' || c == '?'
  }

  /** `$` under the `m` flag: the end of the input or just before a line terminator. */
  predicate AtLineEnd(s: string, p: nat)
    requires p <= |s|
  {
    p == |s| || IsLineTerminator(s[p])
  }

  /** Every character of `s` from index `a` up to (not including) `b` is whitespace. */
  predicate WhitespaceBetween(s: string, a: nat, b: nat)
    requires a <= b <= |s|
  {
    forall j :: a <= j < b ==> IsWhitespace(s[j])
  }

  /** `([^.!?])\s*$` matches at index `i`: the captured character `s[i]` is followed
      by exactly `k` whitespace characters that reach a line end. */
  predicate PunctMatch(s: string, i: nat, k: nat)
  {
    && i + 1 + k <= |s|
    && !IsTerminalPunct(s[i])
    && WhitespaceBetween(s, i + 1, i + 1 + k)
    && AtLineEnd(s, i + 1 + k)
  }

  /** The match the regular-expression engine reports: the leftmost start, and at that
      start the longest whitespace run (the greedy `\s*` backtracks only as far as needed). */
  ghost predicate LeftmostGreedy(s: string, i: nat, k: nat)
  {
    && PunctMatch(s, i, k)
    && (forall i': nat, k': nat :: i' < i ==> !PunctMatch(s, i', k'))
    && (forall k': nat :: PunctMatch(s, i, k') ==> k' <= k)
  }

  /** Length of the maximal run of whitespace starting at `from`. */
  function WhitespaceRun(s: string, from: nat): (n: nat)
    requires from <= |s|
    ensures from + n <= |s|
    ensures WhitespaceBetween(s, from, from + n)
    ensures from + n == |s| || !IsWhitespace(s[from + n])
    decreases |s| - from
  {
    if from < |s| && IsWhitespace(s[from]) then 1 + WhitespaceRun(s, from + 1) else 0
  }

  /** Backtracking of the greedy `\s*`: the largest `j <= k` at which `$` holds. */
  function LongestToLineEnd(s: string, start: nat, k: nat): (r: Option<nat>)
    requires start + k <= |s|
    ensures r.Some? ==> r.value <= k && AtLineEnd(s, start + r.value)
    ensures r.Some? ==> forall p :: start + r.value < p <= start + k ==> !AtLineEnd(s, p)
    ensures r.None? ==> forall p :: start <= p <= start + k ==> !AtLineEnd(s, p)
  {
    if AtLineEnd(s, start + k) then Some(k)
    else if k == 0 then None
    else LongestToLineEnd(s, start, k - 1)
  }

  /** A whitespace slice never extends past the maximal whitespace run. */
  lemma WithinRun(s: string, from: nat, k: nat)
    requires from + k <= |s| && WhitespaceBetween(s, from, from + k)
    ensures k <= WhitespaceRun(s, from)
  {
  }

  /** The regular expression tried at index `i` alone: the greedy match length, if any. */
  function MatchAt(s: string, i: nat): (r: Option<nat>)
    requires i < |s|
    ensures r.Some? ==> PunctMatch(s, i, r.value) && forall k: nat :: PunctMatch(s, i, k) ==> k <= r.value
    ensures r.None? ==> forall k: nat :: !PunctMatch(s, i, k)
  {
    if IsTerminalPunct(s[i]) then None
    else
      var n := WhitespaceRun(s, i + 1);
      var m := LongestToLineEnd(s, i + 1, n);
      assert forall k: nat :: PunctMatch(s, i, k) ==> k <= n by {
        forall k: nat | PunctMatch(s, i, k) ensures k <= n {
          WithinRun(s, i + 1, k);
        }
      }
      m
  }

  /** The engine's scan over start positions `from`, `from + 1`, ... */
  function LeftmostFrom(s: string, from: nat): (r: Option<(nat, nat)>)
    ensures r.None? ==> forall i: nat, k: nat :: from <= i ==> !PunctMatch(s, i, k)
    ensures r.Some? ==> from <= r.value.0 && PunctMatch(s, r.value.0, r.value.1)
    ensures r.Some? ==> forall i: nat, k: nat :: from <= i < r.value.0 ==> !PunctMatch(s, i, k)
    ensures r.Some? ==> forall k: nat :: PunctMatch(s, r.value.0, k) ==> k <= r.value.1
    decreases |s| - from
  {
    if from >= |s| then None
    else
      match MatchAt(s, from)
      case Some(k) => Some((from, k))
      case None => LeftmostFrom(s, from + 1)
  }

  /** Step 2: at the leftmost character other than `.`, `!`, `?` that is followed only by
      whitespace up to a line end, keep that character, put "." after it and drop the
      whitespace; with no such character the text is unchanged. */
  function Punctuate(s: string): (r: string)
    ensures (forall i: nat, k: nat :: !PunctMatch(s, i, k)) ==> r == s
    ensures forall i: nat, k: nat :: LeftmostGreedy(s, i, k) ==> r == s[..i + 1] + "." + s[i + 1 + k..]
  {
    match LeftmostFrom(s, 0)
    case None => s
    case Some((i, k)) =>
      assert forall i': nat, k': nat :: LeftmostGreedy(s, i', k') ==> i' == i && k' == k by {
        forall i': nat, k': nat | LeftmostGreedy(s, i', k') ensures i' == i && k' == k {
          LeftmostGreedyUnique(s, i, k, i', k');
        }
      }
      s[..i + 1] + "." + s[i + 1 + k..]
  }

  /** There is at most one leftmost greedy match. */
  lemma LeftmostGreedyUnique(s: string, i: nat, k: nat, i': nat, k': nat)
    requires LeftmostGreedy(s, i, k) && LeftmostGreedy(s, i', k')
    ensures i == i' && k == k'
  {
    assert !(i' < i) && !(i < i');
  }

  /** Whenever the regular expression matches somewhere, there is a leftmost greedy match. */
  lemma LeftmostGreedyExists(s: string, i: nat, k: nat)
    requires PunctMatch(s, i, k)
    ensures LeftmostFrom(s, 0).Some?
    ensures LeftmostGreedy(s, LeftmostFrom(s, 0).value.0, LeftmostFrom(s, 0).value.1)
  {
  }

  /** The text has no line terminator, so `$` holds only at its end. */
  predicate SingleLine(s: string)
  {
    forall j :: 0 <= j < |s| ==> !IsLineTerminator(s[j])
  }

  /** On one line `$` holds only at the end, so a match runs to the end of the text. */
  lemma SingleLineMatchEnds(s: string)
    requires SingleLine(s)
    ensures forall i: nat, k: nat :: PunctMatch(s, i, k) ==> i + 1 + k == |s| && WhitespaceBetween(s, i + 1, |s|)
  {
  }

  /** On one line, no match starts before a character that is not whitespace. */
  lemma NoMatchBeforeSolid(s: string, c: nat)
    requires SingleLine(s) && c < |s| && !IsWhitespace(s[c])
    ensures forall i: nat, k: nat :: i < c ==> !PunctMatch(s, i, k)
  {
    SingleLineMatchEnds(s);
  }

  /** The leftmost greedy match on one line not ending in `.`, `!` or `?`. */
  lemma SingleLineMatch(s: string) returns (i: nat, k: nat)
    requires SingleLine(s) && |s| > 0 && !IsTerminalPunct(s[|s| - 1])
    ensures LeftmostGreedy(s, i, k) && i + 1 + k == |s|
    ensures var t := TrimEnd(s);
            if t != [] && !IsTerminalPunct(t[|t| - 1]) then i == |t| - 1 else i == |t| < |s|
  {
    var t := TrimEnd(s);
    var n := |t|;
    SingleLineMatchEnds(s);
    if t != [] && !IsTerminalPunct(t[n - 1]) {
      i, k := n - 1, |s| - n;
      assert s[i] == t[n - 1];
      NoMatchBeforeSolid(s, n - 1);
    } else {
      assert n < |s|;
      i, k := n, |s| - n - 1;
      if n > 0 {
        assert s[n - 1] == t[n - 1];
        NoMatchBeforeSolid(s, n - 1);
      }
    }
    assert PunctMatch(s, i, k);
  }

  /** On one line not ending in `.`, `!` or `?`, step 2 cuts the trailing whitespace and
      appends "." when the last other character is not terminal punctuation; otherwise the
      first trailing whitespace character is the one captured, so it stays before the ".".
      Either way the result ends with ".". */
  lemma PunctuateSingleLine(s: string)
    requires SingleLine(s) && |s| > 0 && !IsTerminalPunct(s[|s| - 1])
    ensures var t := TrimEnd(s);
            t != [] && !IsTerminalPunct(t[|t| - 1]) ==> Punctuate(s) == t + "."
    ensures var t := TrimEnd(s);
            (t == [] || IsTerminalPunct(t[|t| - 1])) ==> |t| < |s| && Punctuate(s) == s[..|t| + 1] + "."
    ensures Punctuate(s)[|Punctuate(s)| - 1] == '.'
  {
    var t := TrimEnd(s);
    var i := SingleLinePunctuate(s);
    var r := Punctuate(s);
    if t != [] && !IsTerminalPunct(t[|t| - 1]) {
      assert s[..i + 1] == t;
    }
    assert r[|r| - 1] == '.';
  }

  /** Step 2 on one line not ending in `.`, `!` or `?`: the text up to the captured
      character, then ".". */
  lemma SingleLinePunctuate(s: string) returns (i: nat)
    requires SingleLine(s) && |s| > 0 && !IsTerminalPunct(s[|s| - 1])
    ensures i < |s| && Punctuate(s) == s[..i + 1] + "."
    ensures var t := TrimEnd(s);
            if t != [] && !IsTerminalPunct(t[|t| - 1]) then i == |t| - 1 else i == |t| < |s|
  {
    var k;
    i, k := SingleLineMatch(s);
    assert Punctuate(s) == s[..i + 1] + "." + s[i + 1 + k..];
    assert s[i + 1 + k..] == [];
  }

  /** A sentence already closed by "." and followed by a space gets a second ".". */
  lemma PunctuateAfterPunctuation()
    ensures Punctuate("Done. ") == "Done. ."
  {
    TrimEndDone();
    var i := SingleLinePunctuate("Done. ");
    assert "Done. "[..6] == "Done. ";
  }

  lemma TrimEndDone()
    ensures SingleLine("Done. ") && TrimEnd("Done. ") == "Done."
  {
    var s := "Done. ";
    assert SpaceRunStart(s, 6) == SpaceRunStart(s, 5) == 5;
    assert s[..5] == "Done.";
  }

  /** Trailing whitespace after a word is replaced by the ".". */
  lemma PunctuateDropsTrailingSpace()
    ensures Punctuate("hi  ") == "hi."
  {
    TrimEndHi();
    var i := SingleLinePunctuate("hi  ");
    assert "hi  "[..2] == "hi";
  }

  lemma TrimEndHi()
    ensures SingleLine("hi  ") && TrimEnd("hi  ") == "hi"
  {
    var s := "hi  ";
    assert SpaceRunStart(s, 4) == SpaceRunStart(s, 3) == SpaceRunStart(s, 2) == 2;
    assert s[..2] == "hi";
  }

  /** A one-line text that already ends in `.`, `!` or `?` is left alone by step 2. */
  lemma PunctuateSingleLineDone(s: string)
    requires SingleLine(s) && |s| > 0 && IsTerminalPunct(s[|s| - 1])
    ensures Punctuate(s) == s
  {
    forall i: nat, k: nat ensures !PunctMatch(s, i, k) {
    }
  }

  /** In a text of several lines step 2 punctuates the first line that needs it, not the last. */
  lemma PunctuateFirstLine()
    ensures Punctuate("a\nb") == "a.\nb"
  {
    assert PunctMatch("a\nb", 0, 0);
    LeftmostGreedyExists("a\nb", 0, 0);
  }

  // ---------------------------------------------------------------------------
  // Step 3: `replace(/[-•]\s+/g, "• ")`
  // ---------------------------------------------------------------------------

  const BulletGlyph: char := '\U{2022}'

  predicate IsBulletMark(c: char)
  {
    c == '-' || c == BulletGlyph
  }

  /** Step 3: every hyphen or bullet followed by a (maximal) run of whitespace becomes
      exactly a bullet and one space; the scan resumes after the run. */
  function NormalizeBullets(s: string): (r: string)
    ensures r == [] <==> s == []
    ensures r != [] ==> (IsWhitespace(r[0]) <==> IsWhitespace(s[0]))
    decreases |s|
  {
    if |s| == 0 then []
    else if IsBulletMark(s[0]) && |s| > 1 && IsWhitespace(s[1]) then
      [BulletGlyph, ' '] + NormalizeBullets(s[1 + WhitespaceRun(s, 1)..])
    else
      [s[0]] + NormalizeBullets(s[1..])
  }

  /** The normal form step 3 produces: a mark followed by whitespace is a bullet glyph,
      followed by one space and then something other than whitespace. */
  ghost predicate BulletsNormal(t: string)
  {
    forall j :: 0 <= j < |t| - 1 && IsBulletMark(t[j]) && IsWhitespace(t[j + 1]) ==>
      t[j] == BulletGlyph && t[j + 1] == ' ' && (j + 2 == |t| || !IsWhitespace(t[j + 2]))
  }

  /** A bullet and a space before normal text that does not open with whitespace. */
  lemma NormalAfterBullet(u: string)
    requires BulletsNormal(u) && (u == [] || !IsWhitespace(u[0]))
    ensures BulletsNormal([BulletGlyph, ' '] + u)
  {
    var t := [BulletGlyph, ' '] + u;
    forall j | 0 <= j < |t| - 1 && IsBulletMark(t[j]) && IsWhitespace(t[j + 1])
      ensures t[j] == BulletGlyph && t[j + 1] == ' ' && (j + 2 == |t| || !IsWhitespace(t[j + 2]))
    {
      if j >= 2 {
        assert t[j] == u[j - 2] && t[j + 1] == u[j - 1];
      }
    }
  }

  /** A character before normal text, unless it is a mark that the text's opening
      whitespace would turn into a bullet. */
  lemma NormalAfterChar(c: char, u: string)
    requires BulletsNormal(u) && !(IsBulletMark(c) && u != [] && IsWhitespace(u[0]))
    ensures BulletsNormal([c] + u)
  {
    var t := [c] + u;
    forall j | 0 <= j < |t| - 1 && IsBulletMark(t[j]) && IsWhitespace(t[j + 1])
      ensures t[j] == BulletGlyph && t[j + 1] == ' ' && (j + 2 == |t| || !IsWhitespace(t[j + 2]))
    {
      assert t[j + 1] == u[j];
      if j >= 1 {
        assert t[j] == u[j - 1];
      }
    }
  }

  /** Step 3 always produces the normal form. */
  lemma {:induction false} NormalizeBulletsNormal(s: string)
    ensures BulletsNormal(NormalizeBullets(s))
    decreases |s|
  {
    if |s| > 0 {
      if IsBulletMark(s[0]) && |s| > 1 && IsWhitespace(s[1]) {
        var rest := s[1 + WhitespaceRun(s, 1)..];
        NormalizeBulletsNormal(rest);
        NormalAfterBullet(NormalizeBullets(rest));
      } else {
        NormalizeBulletsNormal(s[1..]);
        NormalAfterChar(s[0], NormalizeBullets(s[1..]));
      }
    }
  }

  /** Normal form carries over to every suffix. */
  lemma NormalSuffix(t: string, d: nat)
    requires BulletsNormal(t) && d <= |t|
    ensures BulletsNormal(t[d..])
  {
    var rest := t[d..];
    forall j | 0 <= j < |rest| - 1 && IsBulletMark(rest[j]) && IsWhitespace(rest[j + 1])
      ensures rest[j] == BulletGlyph && rest[j + 1] == ' ' && (j + 2 == |rest| || !IsWhitespace(rest[j + 2]))
    {
      assert rest[j] == t[j + d] && rest[j + 1] == t[j + d + 1];
      if j + 2 < |rest| {
        assert rest[j + 2] == t[j + d + 2];
      }
    }
  }

  /** Step 3 keeps a normal bullet whose remainder it keeps. */
  lemma FixedBulletStep(t: string)
    requires BulletsNormal(t) && |t| > 1 && IsBulletMark(t[0]) && IsWhitespace(t[1])
    requires NormalizeBullets(t[2..]) == t[2..]
    ensures NormalizeBullets(t) == t
  {
    assert t[0] == BulletGlyph && t[1] == ' ' && (|t| == 2 || !IsWhitespace(t[2]));
    assert WhitespaceRun(t, 2) == 0;
    assert t == [BulletGlyph, ' '] + t[2..];
  }

  /** Step 3 keeps a character it copies when it keeps the remainder. */
  lemma FixedCharStep(t: string)
    requires |t| > 0 && !(IsBulletMark(t[0]) && |t| > 1 && IsWhitespace(t[1]))
    requires NormalizeBullets(t[1..]) == t[1..]
    ensures NormalizeBullets(t) == t
  {
    assert t == [t[0]] + t[1..];
  }

  /** A text already in normal form is left alone by step 3. */
  lemma {:induction false} NormalizeBulletsFixed(t: string)
    requires BulletsNormal(t)
    ensures NormalizeBullets(t) == t
    decreases |t|
  {
    if |t| > 0 {
      if IsBulletMark(t[0]) && |t| > 1 && IsWhitespace(t[1]) {
        NormalSuffix(t, 2);
        NormalizeBulletsFixed(t[2..]);
        FixedBulletStep(t);
      } else {
        NormalSuffix(t, 1);
        NormalizeBulletsFixed(t[1..]);
        FixedCharStep(t);
      }
    }
  }

  /** The maximal run is determined by where the whitespace stops. */
  lemma {:induction false} WhitespaceRunIs(s: string, from: nat, n: nat)
    requires from + n <= |s| && WhitespaceBetween(s, from, from + n)
    requires from + n == |s| || !IsWhitespace(s[from + n])
    ensures WhitespaceRun(s, from) == n
    decreases n
  {
    if n > 0 {
      WhitespaceRunIs(s, from + 1, n - 1);
    }
  }

  /** Step 3 copies any character that is not a mark directly before whitespace. */
  lemma NormalizeBulletsCopies(c: char, rest: string)
    requires !(IsBulletMark(c) && rest != [] && IsWhitespace(rest[0]))
    ensures NormalizeBullets([c] + rest) == [c] + NormalizeBullets(rest)
  {
    assert ([c] + rest)[1..] == rest;
  }

  /** Step 3 turns a mark and a whole run of whitespace, of any length, into one bullet
      and one space. */
  lemma NormalizeBulletsCollapses(m: char, ws: string, rest: string)
    requires IsBulletMark(m) && ws != [] && forall i :: 0 <= i < |ws| ==> IsWhitespace(ws[i])
    requires rest == [] || !IsWhitespace(rest[0])
    ensures NormalizeBullets([m] + ws + rest) == [BulletGlyph, ' '] + NormalizeBullets(rest)
  {
    var s := [m] + ws + rest;
    MarkRunShape(m, ws, rest);
    WhitespaceRunIs(s, 1, |ws|);
    CollapseStep(s, |ws|);
  }

  /** Where the mark, the run and the rest lie in their concatenation. */
  lemma MarkRunShape(m: char, ws: string, rest: string)
    requires ws != [] && forall i :: 0 <= i < |ws| ==> IsWhitespace(ws[i])
    requires rest == [] || !IsWhitespace(rest[0])
    ensures var s := [m] + ws + rest;
      && s[0] == m && IsWhitespace(s[1])
      && WhitespaceBetween(s, 1, 1 + |ws|)
      && (1 + |ws| == |s| || !IsWhitespace(s[1 + |ws|]))
      && s[1 + |ws|..] == rest
  {
    var s := [m] + ws + rest;
    assert forall j :: 1 <= j < 1 + |ws| ==> s[j] == ws[j - 1];
    assert 1 + |ws| < |s| ==> s[1 + |ws|] == rest[0];
  }

  /** The bullet branch of step 3, for a run of known length. */
  lemma CollapseStep(s: string, n: nat)
    requires |s| > 1 && IsBulletMark(s[0]) && IsWhitespace(s[1])
    requires n + 1 <= |s| && WhitespaceRun(s, 1) == n
    ensures NormalizeBullets(s) == [BulletGlyph, ' '] + NormalizeBullets(s[1 + n..])
  {
  }

  /** Step 3 is idempotent: its fixed points are exactly the texts in normal form. */
  lemma NormalizeBulletsIdempotent(s: string)
    ensures NormalizeBullets(NormalizeBullets(s)) == NormalizeBullets(s)
    ensures NormalizeBullets(s) == s <==> BulletsNormal(s)
  {
    NormalizeBulletsNormal(s);
    NormalizeBulletsFixed(NormalizeBullets(s));
    if BulletsNormal(s) {
      NormalizeBulletsFixed(s);
    }
  }

  // ---------------------------------------------------------------------------
  // Step 4: seven `replace(/\b<phrase>\b/gi, <replacement>)` calls, in order
  // ---------------------------------------------------------------------------

  /** The table of substitutions in the order the calls are chained; each phrase is
      written in lower case, which is what the `i` flag compares against. */
  const Substitutions: seq<(string, string)> := [
    ("i want", "I'm interested in"),
    ("can you", "Would you be able to"),
    ("you should", "I'd appreciate if you could"),
    ("really good", "exceptional"),
    ("nice", "professional"),
    ("cool", "impressive"),
    ("soon", "at your earliest convenience")
  ]

  /** Index `q` holds a `\w` character; outside the text nothing does. */
  predicate IsWordAt(s: string, q: int)
  {
    0 <= q < |s| && IsWordChar(s[q])
  }

  /** `\b` holds at position `p`. */
  predicate WordBoundary(s: string, p: nat)
  {
    IsWordAt(s, p - 1) != IsWordAt(s, p)
  }

  /** `/\b<pat>\b/i` matches at index `p`, for a lower-case ASCII phrase `pat`. */
  predicate WholeWordAt(s: string, pat: string, p: nat)
  {
    && p + |pat| <= |s|
    && WordBoundary(s, p)
    && OccursAt(Lower(s), pat, p)
    && WordBoundary(s, p + |pat|)
  }

  /** The global replacement scanning from index `i` of the original text: a match is
      replaced and the scan resumes after it; otherwise one character is copied. */
  function ReplaceFrom(s: string, pat: string, rep: string, i: nat): string
    requires |pat| > 0 && i <= |s|
    decreases |s| - i
  {
    if i == |s| then []
    else if WholeWordAt(s, pat, i) then rep + ReplaceFrom(s, pat, rep, i + |pat|)
    else [s[i]] + ReplaceFrom(s, pat, rep, i + 1)
  }

  /** `s.replace(/\b<pat>\b/gi, rep)`. */
  function ReplaceWord(s: string, pat: string, rep: string): string
    requires |pat| > 0
  {
    ReplaceFrom(s, pat, rep, 0)
  }

  /** Between two matches the text is copied unchanged. */
  lemma {:induction false} ReplaceSkip(s: string, pat: string, rep: string, i: nat, m: nat)
    requires |pat| > 0 && i <= m <= |s|
    requires forall p: nat :: i <= p < m ==> !WholeWordAt(s, pat, p)
    ensures ReplaceFrom(s, pat, rep, i) == s[i..m] + ReplaceFrom(s, pat, rep, m)
    decreases m - i
  {
    if i < m {
      assert !WholeWordAt(s, pat, i);
      var tail := ReplaceFrom(s, pat, rep, i + 1);
      assert ReplaceFrom(s, pat, rep, i) == [s[i]] + tail;
      ReplaceSkip(s, pat, rep, i + 1, m);
      assert s[i..m] == [s[i]] + s[i + 1..m];
      assert [s[i]] + (s[i + 1..m] + ReplaceFrom(s, pat, rep, m))
          == ([s[i]] + s[i + 1..m]) + ReplaceFrom(s, pat, rep, m);
    }
  }

  /** The global replacement, stated as the engine performs it: the text up to the leftmost
      match from `i` is copied, that match becomes `rep`, and the scan goes on after it;
      with no match left the rest is copied as it is. */
  lemma LeftmostReplacement(s: string, pat: string, rep: string, i: nat, m: nat)
    requires |pat| > 0 && i <= m <= |s|
    requires forall p: nat :: i <= p < m ==> !WholeWordAt(s, pat, p)
    ensures WholeWordAt(s, pat, m) ==>
      ReplaceFrom(s, pat, rep, i) == s[i..m] + rep + ReplaceFrom(s, pat, rep, m + |pat|)
    ensures m == |s| ==> ReplaceFrom(s, pat, rep, i) == s[i..]
  {
    ReplaceSkip(s, pat, rep, i, m);
  }

  /** A text with no whole-word occurrence of the phrase is left unchanged. */
  lemma ReplaceWordAbsent(s: string, pat: string, rep: string)
    requires |pat| > 0
    requires forall p: nat :: !WholeWordAt(s, pat, p)
    ensures ReplaceWord(s, pat, rep) == s
  {
    ReplaceSkip(s, pat, rep, 0, |s|);
  }

  /** A whole-word occurrence makes the replacement text appear in the result. */
  lemma {:induction false} ReplaceFromPresent(s: string, pat: string, rep: string, i: nat, p: nat)
    requires |pat| > 0 && i <= p && WholeWordAt(s, pat, p)
    ensures Contains(ReplaceFrom(s, pat, rep, i), rep)
    decreases p - i
  {
    var r := ReplaceFrom(s, pat, rep, i);
    if WholeWordAt(s, pat, i) {
      ContainsAt(r, rep, 0);
    } else {
      ReplaceFromPresent(s, pat, rep, i + 1, p);
      ContainsAppendLeft([s[i]], ReplaceFrom(s, pat, rep, i + 1), rep);
    }
  }

  lemma ReplaceWordPresent(s: string, pat: string, rep: string, p: nat)
    requires |pat| > 0 && WholeWordAt(s, pat, p)
    ensures Contains(ReplaceWord(s, pat, rep), rep)
  {
    ReplaceFromPresent(s, pat, rep, 0, p);
  }

  /** Text in front of a string does not hide an occurrence in it. */
  lemma ContainsAppendLeft(x: string, y: string, w: string)
    requires Contains(y, w)
    ensures Contains(x + y, w)
  {
    ContainsIff(y, w);
    var k: nat :| OccursAt(y, w, k);
    OccursAtIff(y, w, k);
    assert (x + y)[|x| + k..|x| + k + |w|] == y[k..k + |w|];
    ContainsAt(x + y, w, |x| + k);
  }

  /** Every phrase of the table is non-empty. */
  predicate NonEmptyPhrases(subs: seq<(string, string)>)
  {
    forall n :: 0 <= n < |subs| ==> |subs[n].0| > 0
  }

  /** The chained substitutions, first entry first. */
  function SubstituteAll(s: string, subs: seq<(string, string)>): string
    requires NonEmptyPhrases(subs)
    decreases |subs|
  {
    if subs == [] then s
    else SubstituteAll(ReplaceWord(s, subs[0].0, subs[0].1), subs[1..])
  }

  lemma SubstitutionsNonEmpty()
    ensures NonEmptyPhrases(Substitutions)
  {
  }

  /** Step 4. */
  function SubstitutePhrases(s: string): string
  {
    SubstituteAll(s, Substitutions)
  }

  /** Whole words only: "niceties" keeps its letters. */
  lemma NicetiesUntouched()
    ensures ReplaceWord("niceties", "nice", "professional") == "niceties"
  {
  }

  /** Whole words only: "soonest" keeps its letters. */
  lemma SoonestUntouched()
    ensures ReplaceWord("soonest", "soon", "at your earliest convenience") == "soonest"
  {
  }

  /** Any letter case matches, and the rest of the text is copied. */
  lemma UpperCaseReplaced()
    ensures ReplaceWord("NICE work", "nice", "professional") == "professional work"
  {
  }

  // ---------------------------------------------------------------------------
  // Step 5: closing line unless `/thanks|regards|appreciate|looking forward/i` matches
  // ---------------------------------------------------------------------------

  const Closing: string := "\n\nI look forward to hearing from you."

  const ClosingMarkers: seq<string> := ["thanks", "regards", "appreciate", "looking forward"]

  /** Some closing marker occurs anywhere in the text, ignoring ASCII case. */
  predicate HasClosingMarker(s: string)
  {
    exists m :: m in ClosingMarkers && Contains(Lower(s), m)
  }

  /** Step 5: append the closing line exactly when no closing marker is present. */
  function AddClosing(s: string): (r: string)
    ensures r == s + Closing <==> !HasClosingMarker(s)
    ensures HasClosingMarker(s) ==> r == s
  {
    if HasClosingMarker(s) then s else s + Closing
  }

  // ---------------------------------------------------------------------------
  // The pipeline
  // ---------------------------------------------------------------------------

  /** `enhanceMessageText`: the five steps, each applied to the previous one's output. */
  function EnhanceMessageText(text: string): string
  {
    AddClosing(SubstitutePhrases(NormalizeBullets(Punctuate(AddLeadIn(text)))))
  }

  /** `enhanceMessage`: a blank message is left as it is; otherwise the field receives the
      enhancement of the trimmed message, which is never empty. */
  function EnhanceMessage(value: string): (r: string)
    ensures AllWhitespace(value) ==> r == value
    ensures !AllWhitespace(value) ==> r == EnhanceMessageText(Trim(value))
  {
    TrimEmptyIff(value);
    if Trim(value) == [] then value
    else
      EnhanceMessageText(Trim(value))
  }

  // ---------------------------------------------------------------------------
  // Prefixes that steps 2 to 5 leave in place
  // ---------------------------------------------------------------------------

  /** Lower-casing changes no character class the steps look at, and is idempotent. */
  lemma LowerCharClasses(c: char)
    ensures IsWhitespace(LowerChar(c)) == IsWhitespace(c)
    ensures IsLineTerminator(LowerChar(c)) == IsLineTerminator(c)
    ensures IsTerminalPunct(LowerChar(c)) == IsTerminalPunct(c)
    ensures IsBulletMark(LowerChar(c)) == IsBulletMark(c)
    ensures IsWordChar(LowerChar(c)) == IsWordChar(c)
    ensures LowerChar(LowerChar(c)) == LowerChar(c)
  {
  }

  // The checks below are recursive so that Dafny can evaluate them on a literal.

  predicate NoLineTerminatorFrom(P: string, j: nat)
    decreases |P| - j
  {
    j >= |P| || (!IsLineTerminator(P[j]) && NoLineTerminatorFrom(P, j + 1))
  }

  predicate NoBulletMarkFrom(P: string, j: nat)
    decreases |P| - j
  {
    j >= |P| || (!IsBulletMark(P[j]) && NoBulletMarkFrom(P, j + 1))
  }

  /** Laid at `p`, some character of `pat[j..]` that falls inside `P` differs, ignoring
      ASCII case, from the character of `P` it faces. */
  predicate MismatchWithin(P: string, pat: string, p: nat, j: nat)
    decreases |pat| - j
  {
    j < |pat| && p + j < |P| && (LowerChar(P[p + j]) != pat[j] || MismatchWithin(P, pat, p, j + 1))
  }

  /** `\b` cannot hold at `p`, strictly inside `P`. */
  predicate NoBoundaryInside(P: string, p: nat)
  {
    0 < p < |P| && IsWordChar(P[p - 1]) == IsWordChar(P[p])
  }

  /** No match of `pat` can start at any position `p' >= p` inside `P`. */
  predicate BlocksFrom(P: string, pat: string, p: nat)
    decreases |P| - p
  {
    p >= |P| || ((NoBoundaryInside(P, p) || MismatchWithin(P, pat, p, 0)) && BlocksFrom(P, pat, p + 1))
  }

  /** No phrase of `subs` can start a match inside `P`. */
  predicate BlocksTable(P: string, subs: seq<(string, string)>)
  {
    forall n :: 0 <= n < |subs| ==> BlocksFrom(P, subs[n].0, 0)
  }

  /** Text that steps 2 to 4 cannot act on from inside: no line ends in it, it holds no
      hyphen or bullet, and no phrase of the table can start a match in it. */
  predicate Inert(P: string)
  {
    NoLineTerminatorFrom(P, 0) && NoBulletMarkFrom(P, 0) && BlocksTable(P, Substitutions)
  }

  /** Text ending in a non-space, or in terminal punctuation and one more character. */
  predicate SettledEnd(P: string)
  {
    |P| > 0 && (!IsWhitespace(P[|P| - 1]) || (|P| >= 2 && IsTerminalPunct(P[|P| - 2])))
  }

  /** A prefix that steps 2 to 5 leave in place. */
  predicate StablePrefix(P: string)
  {
    Inert(P) && SettledEnd(P)
  }

  lemma {:induction false} NoLineTerminatorFromIff(P: string, j: nat)
    ensures NoLineTerminatorFrom(P, j) <==> forall q :: j <= q < |P| ==> !IsLineTerminator(P[q])
    decreases |P| - j
  {
    if j < |P| {
      NoLineTerminatorFromIff(P, j + 1);
    }
  }

  lemma {:induction false} NoBulletMarkFromIff(P: string, j: nat)
    ensures NoBulletMarkFrom(P, j) <==> forall q :: j <= q < |P| ==> !IsBulletMark(P[q])
    decreases |P| - j
  {
    if j < |P| {
      NoBulletMarkFromIff(P, j + 1);
    }
  }

  lemma {:induction false} MismatchWithinIff(P: string, pat: string, p: nat, j: nat)
    ensures MismatchWithin(P, pat, p, j) <==>
            exists t :: j <= t < |pat| && p + t < |P| && LowerChar(P[p + t]) != pat[t]
    decreases |pat| - j
  {
    if j < |pat| && p + j < |P| {
      MismatchWithinIff(P, pat, p, j + 1);
    }
  }

  lemma {:induction false} BlocksFromIff(P: string, pat: string, j: nat)
    ensures BlocksFrom(P, pat, j) <==>
            forall p: nat :: j <= p < |P| ==> NoBoundaryInside(P, p) || MismatchWithin(P, pat, p, 0)
    decreases |P| - j
  {
    if j < |P| {
      BlocksFromIff(P, pat, j + 1);
    }
  }

  /** A blocked phrase stays blocked when more text follows or precedes. */
  lemma BlocksAppend(x: string, y: string, pat: string)
    requires BlocksFrom(x, pat, 0) && BlocksFrom(y, pat, 0)
    ensures BlocksFrom(x + y, pat, 0)
  {
    BlocksFromIff(x, pat, 0);
    BlocksFromIff(y, pat, 0);
    BlocksFromIff(x + y, pat, 0);
    var xy := x + y;
    forall p: nat | p < |xy|
      ensures NoBoundaryInside(xy, p) || MismatchWithin(xy, pat, p, 0)
    {
      if p < |x| {
        if NoBoundaryInside(x, p) {
          assert xy[p - 1] == x[p - 1] && xy[p] == x[p];
        } else {
          MismatchWithinIff(x, pat, p, 0);
          var t :| 0 <= t < |pat| && p + t < |x| && LowerChar(x[p + t]) != pat[t];
          assert xy[p + t] == x[p + t];
          MismatchWithinIff(xy, pat, p, 0);
        }
      } else {
        var q: nat := p - |x|;
        if NoBoundaryInside(y, q) {
          assert xy[p - 1] == y[q - 1] && xy[p] == y[q];
        } else {
          MismatchWithinIff(y, pat, q, 0);
          var t :| 0 <= t < |pat| && q + t < |y| && LowerChar(y[q + t]) != pat[t];
          assert xy[p + t] == y[q + t];
          MismatchWithinIff(xy, pat, p, 0);
        }
      }
    }
  }

  /** Inert texts joined are inert. */
  lemma InertAppend(x: string, y: string)
    requires Inert(x) && Inert(y)
    ensures Inert(x + y)
  {
    NoLineTerminatorFromIff(x, 0);
    NoLineTerminatorFromIff(y, 0);
    NoLineTerminatorFromIff(x + y, 0);
    NoBulletMarkFromIff(x, 0);
    NoBulletMarkFromIff(y, 0);
    NoBulletMarkFromIff(x + y, 0);
    forall n | 0 <= n < |Substitutions|
      ensures BlocksFrom(x + y, Substitutions[n].0, 0)
    {
      BlocksAppend(x, y, Substitutions[n].0);
    }
  }

  /** Inert text followed by a stable prefix is a stable prefix. */
  lemma StableAppend(x: string, y: string)
    requires Inert(x) && StablePrefix(y)
    ensures StablePrefix(x + y)
  {
    InertAppend(x, y);
    var xy := x + y;
    assert xy[|xy| - 1] == y[|y| - 1];
    if |y| >= 2 {
      assert xy[|xy| - 2] == y[|y| - 2];
    }
  }

  /** Only the lower-case form of a prefix matters: the checks ignore ASCII case. */
  lemma StablePrefixLower(P: string)
    requires StablePrefix(Lower(P))
    ensures StablePrefix(P)
  {
    var L := Lower(P);
    NoLineTerminatorFromIff(L, 0);
    NoLineTerminatorFromIff(P, 0);
    NoBulletMarkFromIff(L, 0);
    NoBulletMarkFromIff(P, 0);
    forall q | 0 <= q < |P|
      ensures IsLineTerminator(L[q]) == IsLineTerminator(P[q]) && IsBulletMark(L[q]) == IsBulletMark(P[q])
      ensures IsWhitespace(L[q]) == IsWhitespace(P[q]) && IsTerminalPunct(L[q]) == IsTerminalPunct(P[q])
      ensures IsWordChar(L[q]) == IsWordChar(P[q]) && LowerChar(L[q]) == LowerChar(P[q])
    {
      LowerCharClasses(P[q]);
    }
    forall n | 0 <= n < |Substitutions|
      ensures BlocksFrom(P, Substitutions[n].0, 0)
    {
      var pat := Substitutions[n].0;
      BlocksFromIff(L, pat, 0);
      BlocksFromIff(P, pat, 0);
      forall p: nat | p < |P|
        ensures NoBoundaryInside(P, p) || MismatchWithin(P, pat, p, 0)
      {
        if !NoBoundaryInside(L, p) {
          MismatchWithinIff(L, pat, p, 0);
          MismatchWithinIff(P, pat, p, 0);
        }
      }
    }
  }

  /** A match of step 2's expression never ends strictly inside such a prefix. */
  lemma NoEarlyPunctMatch(P: string, s: string, i: nat, k: nat)
    requires |P| <= |s| && s[..|P|] == P && |P| > 0
    requires forall q :: 0 <= q < |P| ==> !IsLineTerminator(P[q])
    requires !IsWhitespace(P[|P| - 1]) || (|P| >= 2 && IsTerminalPunct(P[|P| - 2]))
    requires PunctMatch(s, i, k)
    ensures i + 1 >= |P|
  {
    assert forall q :: 0 <= q < |P| ==> s[q] == P[q];
  }

  /** Step 2 keeps such a prefix: the leftmost match cannot end inside it. */
  lemma PunctuateKeepsPrefix(P: string, s: string)
    requires |P| <= |s| && s[..|P|] == P && |P| > 0
    requires forall q :: 0 <= q < |P| ==> !IsLineTerminator(P[q])
    requires !IsWhitespace(P[|P| - 1]) || (|P| >= 2 && IsTerminalPunct(P[|P| - 2]))
    ensures |P| <= |Punctuate(s)| && Punctuate(s)[..|P|] == P
  {
    var changed, i, k := PunctuateShape(s);
    if changed {
      NoEarlyPunctMatch(P, s, i, k);
      var r := Punctuate(s);
      assert r[..|P|] == s[..i + 1][..|P|];
    }
  }

  /** Step 2 either leaves the text alone or punctuates at some match. */
  lemma PunctuateShape(s: string) returns (changed: bool, i: nat, k: nat)
    ensures !changed ==> Punctuate(s) == s
    ensures changed ==> PunctMatch(s, i, k) && Punctuate(s) == s[..i + 1] + "." + s[i + 1 + k..]
  {
    var found := LeftmostFrom(s, 0);
    changed := found.Some?;
    i, k := 0, 0;
    if changed {
      i, k := found.value.0, found.value.1;
      assert LeftmostGreedy(s, i, k);
    } else {
      assert forall i': nat, k': nat :: !PunctMatch(s, i', k');
    }
  }

  /** Step 3 copies a prefix without hyphens or bullets. */
  lemma {:induction false} BulletsKeepPrefix(P: string, rest: string)
    requires forall q :: 0 <= q < |P| ==> !IsBulletMark(P[q])
    ensures NormalizeBullets(P + rest) == P + NormalizeBullets(rest)
    decreases |P|
  {
    if |P| > 0 {
      assert (P + rest)[0] == P[0];
      assert (P + rest)[1..] == P[1..] + rest;
      forall q | 0 <= q < |P[1..]|
        ensures !IsBulletMark(P[1..][q])
      {
        assert P[1..][q] == P[q + 1];
      }
      BulletsKeepPrefix(P[1..], rest);
      assert NormalizeBullets(P + rest) == [P[0]] + NormalizeBullets(P[1..] + rest);
      assert [P[0]] + P[1..] == P;
    } else {
      assert P + rest == rest;
    }
  }

  /** No phrase match starts inside a blocked prefix. */
  lemma NoMatchInPrefix(P: string, s: string, pat: string)
    requires |P| <= |s| && s[..|P|] == P && BlocksFrom(P, pat, 0)
    ensures forall p: nat :: p < |P| ==> !WholeWordAt(s, pat, p)
  {
    BlocksFromIff(P, pat, 0);
    forall p: nat | p < |P|
      ensures !WholeWordAt(s, pat, p)
    {
      if NoBoundaryInside(P, p) {
        assert s[p - 1] == P[p - 1] && s[p] == P[p];
      } else {
        MismatchWithinIff(P, pat, p, 0);
        var t :| 0 <= t < |pat| && p + t < |P| && LowerChar(P[p + t]) != pat[t];
        assert Lower(s)[p + t] == LowerChar(P[p + t]) by {
          assert s[p + t] == P[p + t];
        }
        if p + |pat| <= |Lower(s)| {
          MatchFromIff(Lower(s), pat, p, 0);
        }
      }
    }
  }

  /** Step 4 keeps a blocked prefix. */
  lemma {:induction false} SubstituteKeepsPrefix(P: string, s: string, subs: seq<(string, string)>)
    requires NonEmptyPhrases(subs)
    requires |P| <= |s| && s[..|P|] == P && BlocksTable(P, subs)
    ensures |P| <= |SubstituteAll(s, subs)| && SubstituteAll(s, subs)[..|P|] == P
    decreases |subs|
  {
    if subs != [] {
      var (pat, rep) := subs[0];
      NoMatchInPrefix(P, s, pat);
      ReplaceSkip(s, pat, rep, 0, |P|);
      var s' := ReplaceWord(s, pat, rep);
      assert s'[..|P|] == P;
      assert BlocksTable(P, subs[1..]) by {
        forall n | 0 <= n < |subs[1..]|
          ensures BlocksFrom(P, subs[1..][n].0, 0)
        {
          assert subs[1..][n] == subs[n + 1];
        }
      }
      SubstituteKeepsPrefix(P, s', subs[1..]);
    }
  }

  /** Steps 2 and 3 leave a stable prefix in place. */
  lemma EarlyStepsKeepPrefix(P: string, s: string)
    requires |P| <= |s| && s[..|P|] == P && StablePrefix(P)
    ensures var r := NormalizeBullets(Punctuate(s));
            |P| <= |r| && r[..|P|] == P
  {
    NoLineTerminatorFromIff(P, 0);
    NoBulletMarkFromIff(P, 0);
    PunctuateKeepsPrefix(P, s);
    var s2 := Punctuate(s);
    assert s2 == P + s2[|P|..];
    BulletsKeepPrefix(P, s2[|P|..]);
  }

  /** Step 4 with its own table keeps a stable prefix. */
  lemma SubstitutePhrasesKeepsPrefix(P: string, s: string)
    requires |P| <= |s| && s[..|P|] == P && StablePrefix(P)
    ensures |P| <= |SubstitutePhrases(s)| && SubstitutePhrases(s)[..|P|] == P
  {
    SubstitutionsNonEmpty();
    SubstituteKeepsPrefix(P, s, Substitutions);
  }

  /** Step 5 keeps every prefix. */
  lemma AddClosingKeepsPrefix(P: string, s: string)
    requires |P| <= |s| && s[..|P|] == P
    ensures |P| <= |AddClosing(s)| && AddClosing(s)[..|P|] == P
  {
  }

  /** Steps 2 to 5 leave a stable prefix of their input in place. */
  lemma KeepsPrefix(P: string, s: string)
    requires |P| <= |s| && s[..|P|] == P && StablePrefix(P)
    ensures var r := AddClosing(SubstitutePhrases(NormalizeBullets(Punctuate(s))));
            |P| <= |r| && r[..|P|] == P
  {
    EarlyStepsKeepPrefix(P, s);
    var s3 := NormalizeBullets(Punctuate(s));
    SubstitutePhrasesKeepsPrefix(P, s3);
    AddClosingKeepsPrefix(P, SubstitutePhrases(s3));
  }

  // ---------------------------------------------------------------------------
  // The opening of an enhanced message
  // ---------------------------------------------------------------------------

  /** The table check, one phrase at a time, so that it can be evaluated on a literal. */
  lemma TableBlocked(P: string)
    requires BlocksFrom(P, "i want", 0) && BlocksFrom(P, "can you", 0)
    requires BlocksFrom(P, "you should", 0) && BlocksFrom(P, "really good", 0)
    requires BlocksFrom(P, "nice", 0) && BlocksFrom(P, "cool", 0) && BlocksFrom(P, "soon", 0)
    ensures BlocksTable(P, Substitutions)
  {
  }

  // One lemma per word keeps each evaluation small.

  lemma InertIm()
    ensures Inert("I'm ")
  {
    TableBlocked("I'm ");
  }

  lemma InertReaching()
    ensures Inert("reaching ")
  {
    TableBlocked("reaching ");
  }

  lemma InertOut()
    ensures Inert("out ")
  {
    TableBlocked("out ");
  }

  lemma InertRegarding()
    ensures Inert("regarding ")
  {
    TableBlocked("regarding ");
  }

  lemma InertA()
    ensures Inert("a ")
  {
    TableBlocked("a ");
  }

  lemma InertDesign()
    ensures Inert("design ")
  {
    TableBlocked("design ");
  }

  lemma StableProject()
    ensures StablePrefix("project. ")
  {
    TableBlocked("project. ");
  }

  /** The lead-in is a stable prefix: no step after the first can change it. */
  lemma LeadInStable()
    ensures StablePrefix(LeadIn)
  {
    InertIm();
    InertReaching();
    InertAppend("I'm ", "reaching ");
    var t2 := "I'm " + "reaching ";
    InertOut();
    InertAppend(t2, "out ");
    var t3 := t2 + "out ";
    InertRegarding();
    InertAppend(t3, "regarding ");
    var t4 := t3 + "regarding ";
    InertA();
    InertAppend(t4, "a ");
    var t5 := t4 + "a ";
    InertDesign();
    InertAppend(t5, "design ");
    StableProject();
    StableAppend(t5 + "design ", "project. ");
  }

  lemma StableHi()
    ensures StablePrefix("hi")
  {
    TableBlocked("hi");
  }

  lemma StableHello()
    ensures StablePrefix("hello")
  {
    TableBlocked("hello");
  }

  lemma StableHey()
    ensures StablePrefix("hey")
  {
    TableBlocked("hey");
  }

  lemma StableGood()
    ensures StablePrefix("good")
  {
    TableBlocked("good");
  }

  lemma StableGreetings()
    ensures StablePrefix("greetings")
  {
    TableBlocked("greetings");
  }

  /** Every greeting word is a stable prefix. */
  lemma GreetingsStable()
    ensures forall g :: g in Greetings ==> StablePrefix(g)
  {
    StableHi();
    StableHello();
    StableHey();
    StableGood();
    StableGreetings();
  }

  /** Without a greeting the enhanced message opens with the lead-in. */
  lemma EnhanceOpensWithLeadIn(text: string)
    requires !StartsWithGreeting(text)
    ensures |LeadIn| <= |EnhanceMessageText(text)|
    ensures EnhanceMessageText(text)[..|LeadIn|] == LeadIn
  {
    LeadInStable();
    var s := LeadIn + text;
    assert s[..|LeadIn|] == LeadIn;
    KeepsPrefix(LeadIn, s);
  }

  /** With a greeting the enhanced message opens with the greeting exactly as typed. */
  lemma EnhanceKeepsGreeting(text: string, g: string)
    requires g in Greetings && OccursAt(Lower(text), g, 0)
    ensures |g| <= |EnhanceMessageText(text)|
    ensures EnhanceMessageText(text)[..|g|] == text[..|g|]
  {
    GreetingsStable();
    OccursAtIff(Lower(text), g, 0);
    var P := text[..|g|];
    LowerSlice(text, 0, |g|);
    assert Lower(P) == g;
    StablePrefixLower(P);
    KeepsPrefix(P, text);
  }

  lemma LeadInFirst()
    ensures |LeadIn| > 0 && LeadIn[0] == 'I'
  {
  }

  lemma GreetingInitials()
    ensures forall g :: g in Greetings ==> |g| > 0 && (g[0] == 'h' || g[0] == 'g')
  {
  }

  /** Text that opens with the lead-in does not open with a greeting. */
  lemma LeadInNoGreeting(s: string)
    requires |LeadIn| <= |s| && s[..|LeadIn|] == LeadIn
    ensures !StartsWithGreeting(s)
  {
    LeadInFirst();
    assert s[0] == s[..|LeadIn|][0];
    OpensWithCapitalI(s);
  }

  /** Text that opens with "I" does not open with a greeting. */
  lemma OpensWithCapitalI(s: string)
    requires |s| > 0 && s[0] == 'I'
    ensures !StartsWithGreeting(s)
  {
    GreetingInitials();
    var L := Lower(s);
    assert L[0] == 'i';
    forall g | g in Greetings
      ensures !OccursAt(L, g, 0)
    {
      assert L[0] != g[0];
    }
  }

  /** Text that opens with the same characters as a greeting does not open with the lead-in. */
  lemma GreetingOpening(r: string, text: string, g: string)
    requires g in Greetings && OccursAt(Lower(text), g, 0)
    requires |g| <= |r| && r[..|g|] == text[..|g|]
    ensures !(|LeadIn| <= |r| && r[..|LeadIn|] == LeadIn)
  {
    LeadInFirst();
    GreetingInitials();
    OccursAtIff(Lower(text), g, 0);
    assert r[0] == text[..|g|][0] == text[0];
    assert Lower(text)[0] == g[0];
    assert r[0] != 'I';
  }

  /** The enhanced message opens with the lead-in exactly when the message does not open
      with a greeting: a greeting begins with "h" or "g" in either case, the lead-in with "I". */
  lemma EnhanceLeadInIff(text: string)
    ensures (|LeadIn| <= |EnhanceMessageText(text)| && EnhanceMessageText(text)[..|LeadIn|] == LeadIn)
            <==> !StartsWithGreeting(text)
  {
    var r := EnhanceMessageText(text);
    if StartsWithGreeting(text) {
      var g :| g in Greetings && OccursAt(Lower(text), g, 0);
      EnhanceKeepsGreeting(text, g);
      GreetingOpening(r, text, g);
    } else {
      EnhanceOpensWithLeadIn(text);
    }
  }

  /** The enhanced message is never empty. */
  lemma EnhanceNonEmpty(text: string)
    ensures EnhanceMessageText(text) != []
  {
    if StartsWithGreeting(text) {
      var g :| g in Greetings && OccursAt(Lower(text), g, 0);
      GreetingInitials();
      EnhanceKeepsGreeting(text, g);
    } else {
      EnhanceOpensWithLeadIn(text);
    }
  }
  /** The button never empties a message that has content. */
  lemma EnhanceMessageKeepsContent(value: string)
    requires !AllWhitespace(value)
    ensures EnhanceMessage(value) != []
  {
    EnhanceNonEmpty(Trim(value));
  }

  /** Whitespace around a message makes no difference to what it becomes. */
  lemma EnhanceMessageIgnoresPadding(value: string)
    ensures EnhanceMessage(Trim(value)) == EnhanceMessage(value) || AllWhitespace(value)
  {
    TrimEmptyIff(value);
    TrimEmptyIff(Trim(value));
    TrimIdempotent(value);
  }



  /** Enhancing is not idempotent: enhancing an enhanced message without a greeting
      prepends the lead-in a second time. */
  lemma EnhanceTwiceRepeatsLeadIn(text: string)
    requires !StartsWithGreeting(text)
    ensures var r := EnhanceMessageText(EnhanceMessageText(text));
            2 * |LeadIn| <= |r| && r[..2 * |LeadIn|] == LeadIn + LeadIn
  {
    var r1 := EnhanceMessageText(text);
    EnhanceOpensWithLeadIn(text);
    LeadInNoGreeting(r1);
    LeadInStable();
    StableAppend(LeadIn, LeadIn);
    DoubledPrefix(LeadIn, r1);
    KeepsPrefix(LeadIn + LeadIn, LeadIn + r1);
  }

  /** A text that starts with `P`, with `P` put in front, starts with `P` twice. */
  lemma DoubledPrefix(P: string, r: string)
    requires |P| <= |r| && r[..|P|] == P
    ensures (P + r)[..2 * |P|] == P + P
  {
    assert (P + r)[..2 * |P|] == P + r[..|P|];
  }

  // ---------------------------------------------------------------------------
  // "you should" and the closing line
  // ---------------------------------------------------------------------------

  /** Every character of `w` is a `\w` character. */
  predicate AllWordChars(w: string)
  {
    forall j :: 0 <= j < |w| ==> IsWordChar(w[j])
  }

  /** The characters of the text where a word of `\w` characters is held are `\w` too. */
  lemma HeldWordChars(s: string, w: string, a: nat)
    requires AllWordChars(w) && a + |w| <= |s| && Lower(s)[a..a + |w|] == w
    ensures forall q :: a <= q < a + |w| ==> IsWordAt(s, q)
  {
    forall q | a <= q < a + |w|
      ensures IsWordAt(s, q)
    {
      assert Lower(s)[q] == w[q - a];
      LowerCharClasses(s[q]);
    }
  }

  /** `\b` does not hold strictly inside a run of word characters. */
  lemma NoBoundaryInRun(s: string, a: nat, n: nat)
    requires forall q :: a <= q < a + n ==> IsWordAt(s, q)
    ensures forall e: nat :: a < e < a + n ==> !WordBoundary(s, e)
  {
    forall e: nat | a < e < a + n
      ensures !WordBoundary(s, e)
    {
      assert IsWordAt(s, e - 1) && IsWordAt(s, e);
    }
  }

  /** A phrase occurrence that covers an occurrence of `w` contains `w`. */
  lemma CoverContains(L: string, pat: string, w: string, a: nat, i: nat)
    requires i <= a && a + |w| <= i + |pat| <= |L|
    requires OccursAt(L, pat, i) && L[a..a + |w|] == w
    ensures Contains(pat, w)
  {
    MatchFromIff(L, pat, i, 0);
    var d := a - i;
    forall j | 0 <= j < |w|
      ensures pat[d + j] == w[j]
    {
      assert L[i + (d + j)] == pat[d + j];
      assert L[a..a + |w|][j] == L[a + j];
    }
    assert pat[d..d + |w|] == w;
    ContainsAt(pat, w, d);
  }

  /** A phrase that does not contain `w` cannot occur over an occurrence of `w`. */
  lemma NoCover(L: string, pat: string, w: string, a: nat)
    requires !Contains(pat, w) && a + |w| <= |L| && L[a..a + |w|] == w
    ensures forall p: nat :: p <= a && a + |w| <= p + |pat| ==> !OccursAt(L, pat, p)
  {
    forall p: nat | p <= a && a + |w| <= p + |pat|
      ensures !OccursAt(L, pat, p)
    {
      if OccursAt(L, pat, p) {
        CoverContains(L, pat, w, a, p);
      }
    }
  }

  /** A match that starts before such a run ends before it: it cannot end inside the
      run, where `\b` fails, nor cover it. */
  lemma MatchBeforeRun(s: string, pat: string, a: nat, n: nat, i: nat)
    requires |pat| > 0 && i <= a && a + n <= |s|
    requires forall q :: a <= q < a + n ==> IsWordAt(s, q)
    requires forall p: nat :: p <= a && a + n <= p + |pat| ==> !WholeWordAt(s, pat, p)
    requires WholeWordAt(s, pat, i)
    ensures i + |pat| <= a
  {
    NoBoundaryInRun(s, a, n);
  }

  /** One step of the global replacement at a match, around a fixed middle part. */
  lemma ReplaceMatchStep(s: string, pat: string, rep: string, i: nat, x: string, m: string, y: string)
    requires |pat| > 0 && i + |pat| <= |s| && WholeWordAt(s, pat, i)
    requires ReplaceFrom(s, pat, rep, i + |pat|) == x + m + y
    ensures ReplaceFrom(s, pat, rep, i) == (rep + x) + m + y
  {
    assert rep + (x + m + y) == (rep + x) + m + y;
  }

  /** One step of the global replacement that copies a character, around a fixed middle. */
  lemma ReplaceCopyStep(s: string, pat: string, rep: string, i: nat, x: string, m: string, y: string)
    requires |pat| > 0 && i < |s| && !WholeWordAt(s, pat, i)
    requires ReplaceFrom(s, pat, rep, i + 1) == x + m + y
    ensures ReplaceFrom(s, pat, rep, i) == ([s[i]] + x) + m + y
  {
    assert [s[i]] + (x + m + y) == ([s[i]] + x) + m + y;
  }

  /** No match starts inside such a run, or at its start. */
  lemma NoMatchInRun(s: string, pat: string, a: nat, n: nat)
    requires |pat| > 0 && a + n <= |s|
    requires forall q :: a <= q < a + n ==> IsWordAt(s, q)
    requires forall p: nat :: p <= a && a + n <= p + |pat| ==> !WholeWordAt(s, pat, p)
    ensures forall p: nat :: a <= p < a + n ==> !WholeWordAt(s, pat, p)
  {
    NoBoundaryInRun(s, a, n);
    forall p: nat | a <= p < a + n
      ensures !WholeWordAt(s, pat, p)
    {
      if p > a {
        assert !WordBoundary(s, p);
      } else if p + |pat| < a + n {
        assert !WordBoundary(s, p + |pat|);
      }
    }
  }

  /** Scanning from the start of such a run copies the run. */
  lemma CopyRunAt(s: string, pat: string, rep: string, a: nat, n: nat) returns (y: string)
    requires |pat| > 0 && a + n <= |s|
    requires forall q :: a <= q < a + n ==> IsWordAt(s, q)
    requires forall p: nat :: p <= a && a + n <= p + |pat| ==> !WholeWordAt(s, pat, p)
    ensures ReplaceFrom(s, pat, rep, a) == [] + s[a..a + n] + y
  {
    NoMatchInRun(s, pat, a, n);
    ReplaceSkip(s, pat, rep, a, a + n);
    y := ReplaceFrom(s, pat, rep, a + n);
  }

  /** A run of word characters that no match covers is copied by the global replacement:
      a match can neither start nor end strictly inside the run. */
  lemma {:induction false} CopiesRun(s: string, pat: string, rep: string, a: nat, n: nat, i: nat)
    returns (x: string, y: string)
    requires |pat| > 0 && i <= a && a + n <= |s|
    requires forall q :: a <= q < a + n ==> IsWordAt(s, q)
    requires forall p: nat :: p <= a && a + n <= p + |pat| ==> !WholeWordAt(s, pat, p)
    ensures ReplaceFrom(s, pat, rep, i) == x + s[a..a + n] + y
    decreases a - i
  {
    if WholeWordAt(s, pat, i) {
      MatchBeforeRun(s, pat, a, n, i);
      var x';
      x', y := CopiesRun(s, pat, rep, a, n, i + |pat|);
      x := rep + x';
      ReplaceMatchStep(s, pat, rep, i, x', s[a..a + n], y);
    } else if i < a {
      var x';
      x', y := CopiesRun(s, pat, rep, a, n, i + 1);
      x := [s[i]] + x';
      ReplaceCopyStep(s, pat, rep, i, x', s[a..a + n], y);
    } else {
      x := [];
      y := CopyRunAt(s, pat, rep, a, n);
    }
  }

  /** A word of `\w` characters in the lower-cased text survives a global replacement of
      a phrase that does not contain it. */
  lemma Survives(s: string, pat: string, rep: string, w: string)
    requires |pat| > 0 && AllWordChars(w) && !Contains(pat, w) && Contains(Lower(s), w)
    ensures Contains(Lower(ReplaceWord(s, pat, rep)), w)
  {
    ContainsIff(Lower(s), w);
    var a: nat :| OccursAt(Lower(s), w, a);
    OccursAtIff(Lower(s), w, a);
    HeldWordChars(s, w, a);
    NoCover(Lower(s), pat, w, a);
    var x, y := CopiesRun(s, pat, rep, a, |w|, 0);
    LowerAppend(x + s[a..a + |w|], y);
    LowerAppend(x, s[a..a + |w|]);
    LowerSlice(s, a, a + |w|);
    ContainsMiddle(Lower(x), w, Lower(y));
  }

  /** The same through a chain of substitutions whose phrases do not contain the word. */
  lemma {:induction false} SurvivesAll(s: string, subs: seq<(string, string)>, w: string)
    requires NonEmptyPhrases(subs) && |w| > 0 && AllWordChars(w)
    requires forall n :: 0 <= n < |subs| ==> !Contains(subs[n].0, w)
    requires Contains(Lower(s), w)
    ensures Contains(Lower(SubstituteAll(s, subs)), w)
    decreases |subs|
  {
    if subs != [] {
      Survives(s, subs[0].0, subs[0].1, w);
      var s' := ReplaceWord(s, subs[0].0, subs[0].1);
      forall n | 0 <= n < |subs[1..]|
        ensures !Contains(subs[1..][n].0, w)
      {
        assert subs[1..][n] == subs[n + 1];
      }
      SurvivesAll(s', subs[1..], w);
    }
  }

  /** None of the phrases after "you should" contains "appreciate". */
  lemma LaterPhrasesMissAppreciate()
    ensures forall n :: 0 <= n < |Substitutions[3..]| ==> !Contains(Substitutions[3..][n].0, "appreciate")
  {
    assert !Contains("really good", "appreciate");
  }

  /** The replacement for "you should" holds "appreciate". */
  lemma ReplacementHasAppreciate()
    ensures Contains("I'd appreciate if you could", "appreciate")
  {
    assert "I'd appreciate if you could" == "I'd " + "appreciate" + " if you could";
    ContainsMiddle("I'd ", "appreciate", " if you could");
  }

  /** Step 4 as the first three substitutions followed by the other four. */
  lemma SubstitutePhrasesSplit(s: string)
    ensures SubstitutePhrases(s) ==
            SubstituteAll(ReplaceWord(ReplaceWord(ReplaceWord(s, "i want", "I'm interested in"),
                                                  "can you", "Would you be able to"),
                                      "you should", "I'd appreciate if you could"),
                          Substitutions[3..])
  {
    SubstitutionsNonEmpty();
    assert Substitutions[1..][1..] == Substitutions[2..];
    assert Substitutions[2..][1..] == Substitutions[3..];
  }

  /** A whole-word "you should" leaves "appreciate" in the lower-cased result of its
      replacement. */
  lemma YouShouldBringsAppreciate(t: string, p: nat)
    requires WholeWordAt(t, "you should", p)
    ensures Contains(Lower(ReplaceWord(t, "you should", "I'd appreciate if you could")), "appreciate")
  {
    var rep := "I'd appreciate if you could";
    var u := ReplaceWord(t, "you should", rep);
    ReplaceWordPresent(t, "you should", rep, p);
    ReplacementHasAppreciate();
    ContainsTransitive(u, rep, "appreciate");
    ContainsLower(u, "appreciate");
  }

  /** A text holding "appreciate" keeps a closing marker through the last four
      substitutions. */
  lemma AppreciateKeepsMarker(u: string)
    requires Contains(Lower(u), "appreciate")
    ensures HasClosingMarker(SubstituteAll(u, Substitutions[3..]))
  {
    LaterPhrasesMissAppreciate();
    SubstitutionsNonEmpty();
    SurvivesAll(u, Substitutions[3..], "appreciate");
    assert "appreciate" in ClosingMarkers;
  }

  /** When "you should" is still present as a whole word once the first two substitutions
      have run, its replacement brings in "appreciate", which the remaining substitutions
      keep, so the closing line is not added. */
  lemma YouShouldSuppressesClosing(s: string, p: nat)
    requires WholeWordAt(ReplaceWord(ReplaceWord(s, "i want", "I'm interested in"),
                                     "can you", "Would you be able to"), "you should", p)
    ensures AddClosing(SubstitutePhrases(s)) == SubstitutePhrases(s)
  {
    var t := ReplaceWord(ReplaceWord(s, "i want", "I'm interested in"), "can you", "Would you be able to");
    YouShouldBringsAppreciate(t, p);
    AppreciateKeepsMarker(ReplaceWord(t, "you should", "I'd appreciate if you could"));
    SubstitutePhrasesSplit(s);
  }

  /** "can you" at the start of "can you should" is a whole word, and replacing it is
      the only change. */
  lemma CanYouShouldFirstStep()
    ensures ReplaceWord("can you should", "can you", "Would you be able to")
            == "Would you be able to should"
  {
    var s := "can you should";
    var pat := "can you";
    var rep := "Would you be able to";
    OccursAtIff(Lower(s), pat, 0);
    assert Lower(s)[..7] == pat;
    assert WholeWordAt(s, pat, 0);
    forall p: nat | 7 <= p < 14 ensures !WholeWordAt(s, pat, p) {
      assert p + |pat| > |s| || Lower(s)[p] == ' ';
    }
    ReplaceSkip(s, pat, rep, 7, 14);
    assert s[7..14] == " should";
  }

  /** The only "y" of the rewritten text is the one of "you", at index 6. */
  lemma OnlyYouAtSix(q: nat)
    requires q < 27
    requires LowerChar("Would you be able to should"[q]) == 'y'
    ensures q == 6
  {
    if q != 6 {
      assert false;
    }
  }

  /** "you should" does not occur anywhere in the lower-cased rewritten text. */
  lemma NoYouShouldAt(p: nat)
    requires p + 10 <= 27
    ensures !OccursAt(Lower("Would you be able to should"), "you should", p)
  {
    var t := "Would you be able to should";
    OccursAtIff(Lower(t), "you should", p);
    if Lower(t)[p] == 'y' {
      OnlyYouAtSix(p);
      assert Lower(t)[10] == 'b';
    }
  }

  /** After "can you" has consumed the "you", "you should" is no longer a whole word, so
      the premise of YouShouldSuppressesClosing fails for "can you should". */
  lemma CanYouConsumesYou()
    ensures ReplaceWord("can you should", "can you", "Would you be able to")
            == "Would you be able to should"
    ensures forall p: nat :: !WholeWordAt("Would you be able to should", "you should", p)
  {
    CanYouShouldFirstStep();
    var t := "Would you be able to should";
    var pat := "you should";
    forall p: nat | p + |pat| <= |t| ensures !OccursAt(Lower(t), pat, p) {
      NoYouShouldAt(p);
    }
  }
}
