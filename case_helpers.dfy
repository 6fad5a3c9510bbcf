/**
  The three identifier-case transforms of templates/input.ts (lines 20-46), applied
  to the text the renderer has already resolved: `capitalize`, `camel` and `snake`.
 */
module CaseHelpers {
  import opened Chars
  import opened Text

  // ---------------------------------------------------------------------------
  // capitalize: upper-case the character at every word start
  // ---------------------------------------------------------------------------

  /** `\b(\w)` matches at `i`: a word character at the start of `s` or right after
      a non-word character. */
  predicate IsWordStart(s: string, i: int)
    requires 0 <= i < |s|
  {
    IsWord(s[i]) && (i == 0 || !IsWord(s[i - 1]))
  }

  /** The left-to-right scan behind the global replace; `afterWord` says whether
      the character before `s` was a word character. */
  function CapitalizeAfter(afterWord: bool, s: string): (r: string)
    ensures |r| == |s|
    decreases |s|
  {
    if s == [] then []
    else [if !afterWord && IsWord(s[0]) then ToUpper(s[0]) else s[0]]
         + CapitalizeAfter(IsWord(s[0]), s[1..])
  }

  /** `s[i]` starts a word when the character before `s` is a word character
      exactly when `afterWord` holds. */
  predicate StartsWordAfter(afterWord: bool, s: string, i: int)
    requires 0 <= i < |s|
  {
    IsWord(s[i]) && !(if i == 0 then afterWord else IsWord(s[i - 1]))
  }

  lemma {:induction false} CapitalizeAfterAt(afterWord: bool, s: string, i: int)
    requires 0 <= i < |s|
    ensures CapitalizeAfter(afterWord, s)[i] ==
              if StartsWordAfter(afterWord, s, i) then ToUpper(s[i]) else s[i]
    decreases |s|
  {
    if i > 0 {
      CapitalizeAfterAt(IsWord(s[0]), s[1..], i - 1);
      assert s[1..][i - 1] == s[i];
      assert i - 1 > 0 ==> s[1..][i - 2] == s[i - 1];
    }
  }

  /** `capitalize`: the character at every word start is upper-cased; every other
      character, including the separators, is kept, and nothing is trimmed. */
  function Capitalize(s: string): (r: string)
    ensures |r| == |s|
    ensures forall i :: 0 <= i < |s| ==>
              r[i] == if IsWordStart(s, i) then ToUpper(s[i]) else s[i]
  {
    seq(|s|, i requires 0 <= i < |s| => if IsWordStart(s, i) then ToUpper(s[i]) else s[i])
  }

  /** The global replace, performed as the regular-expression engine scans from
      the left, upper-cases exactly the word starts. */
  lemma CapitalizeScan(s: string)
    ensures CapitalizeAfter(false, s) == Capitalize(s)
  {
    forall i | 0 <= i < |s|
      ensures CapitalizeAfter(false, s)[i] == Capitalize(s)[i]
    {
      CapitalizeAfterAt(false, s, i);
    }
  }

  /** The scan over `a + c` is the scan over `a`, then the scan over `c` started
      after the last character of `a`. */
  lemma {:induction false} CapitalizeAfterAppend(afterWord: bool, a: string, c: string)
    requires a != []
    ensures CapitalizeAfter(afterWord, a + c) ==
              CapitalizeAfter(afterWord, a) + CapitalizeAfter(IsWord(a[|a| - 1]), c)
    decreases |a|
  {
    assert (a + c)[0] == a[0] && (a + c)[1..] == a[1..] + c;
    if |a| > 1 {
      CapitalizeAfterAppend(IsWord(a[0]), a[1..], c);
    } else {
      assert a[1..] + c == c;
    }
  }

  /** A run of word characters is one word: only its first character can change. */
  lemma {:induction false} CapitalizeWordRun(afterWord: bool, w: string)
    requires w != [] && forall i :: 0 <= i < |w| ==> IsWord(w[i])
    ensures CapitalizeAfter(afterWord, w) == [if afterWord then w[0] else ToUpper(w[0])] + w[1..]
    decreases |w|
  {
    if |w| > 1 {
      CapitalizeWordRun(true, w[1..]);
    }
  }

  /** A single word: only its first character is upper-cased. */
  lemma CapitalizeWord(w: string)
    requires w != [] && forall i :: 0 <= i < |w| ==> IsWord(w[i])
    ensures Capitalize(w) == [ToUpper(w[0])] + w[1..]
  {
    CapitalizeScan(w);
    CapitalizeWordRun(false, w);
  }

  /** Two words around a non-word character: each word's first character is
      upper-cased, the separator is kept. */
  lemma CapitalizeTwoWords(a: string, sep: char, b: string)
    requires a != [] && forall i :: 0 <= i < |a| ==> IsWord(a[i])
    requires b != [] && forall i :: 0 <= i < |b| ==> IsWord(b[i])
    requires !IsWord(sep)
    ensures Capitalize(a + [sep] + b) == [ToUpper(a[0])] + a[1..] + [sep] + [ToUpper(b[0])] + b[1..]
  {
    var rest := [sep] + b;
    CapitalizeSeparatorThenWord(sep, b);
    CapitalizeWordRun(false, a);
    CapitalizeAfterAppend(false, a, rest);
    assert a + [sep] + b == a + rest;
    CapitalizeScan(a + rest);
  }

  /** After a word, a non-word character and then a word: the character is kept
      and the word gets an upper-case first character. */
  lemma CapitalizeSeparatorThenWord(sep: char, b: string)
    requires b != [] && forall i :: 0 <= i < |b| ==> IsWord(b[i])
    requires !IsWord(sep)
    ensures CapitalizeAfter(true, [sep] + b) == [sep] + ([ToUpper(b[0])] + b[1..])
  {
    CapitalizeAfterAppend(true, [sep], b);
    CapitalizeWordRun(false, b);
  }

  /** Upper-casing keeps every word start a word start, so a second pass changes
      nothing. */
  lemma CapitalizeIdempotent(s: string)
    ensures Capitalize(Capitalize(s)) == Capitalize(s)
  {
    var c := Capitalize(s);
    forall i | 0 <= i < |s|
      ensures IsWord(c[i]) == IsWord(s[i])
      ensures Capitalize(c)[i] == c[i]
    {
      CaseKeepsClasses(s[i]);
      if i > 0 {
        CaseKeepsClasses(s[i - 1]);
      }
    }
  }

  /** `capitalize` only re-cases: ignoring case, its output is its input. */
  lemma CapitalizeOnlyRecases(s: string)
    ensures LowerStr(Capitalize(s)) == LowerStr(s)
  {
    forall i | 0 <= i < |s|
      ensures LowerStr(Capitalize(s))[i] == LowerStr(s)[i]
    {
      CaseKeepsClasses(s[i]);
    }
  }

  // ---------------------------------------------------------------------------
  // camel: trim the rendered text, turn each run of `_` and `-` into a space,
  // split on whitespace runs, lower-case the first piece, give every later piece
  // an upper-case first letter and a lower-case rest, and concatenate the pieces
  // ---------------------------------------------------------------------------

  /** A later piece: its first character upper-cased, the rest lower-cased. */
  function UpperFirst(w: string): (r: string)
    ensures |r| == |w|
  {
    if w == [] then [] else [ToUpper(w[0])] + LowerStr(w[1..])
  }

  /** The later pieces, each re-cased by `UpperFirst`, joined with no separator. */
  function UpperFirstAll(parts: seq<string>): string
  {
    if parts == [] then [] else UpperFirst(parts[0]) + UpperFirstAll(parts[1..])
  }

  /** The re-casing and concatenation stage: the first piece lower-cased, the
      later ones by `UpperFirst`, all joined with nothing between them. */
  function CamelJoin(parts: seq<string>): string
  {
    if parts == [] then [] else LowerStr(parts[0]) + UpperFirstAll(parts[1..])
  }

  /** `camel` on the rendered text. */
  function CamelCase(s: string): string
  {
    CamelJoin(SplitWs(Collapse(Trim(s), DashOrUnderscore, ' ')))
  }

  lemma UpperFirstKeepsAbsence(w: string, cls: Class)
    requires cls == Separator || cls == DashOrUnderscore
    requires NoneIn(w, cls)
    ensures NoneIn(UpperFirst(w), cls) && NoneIn(LowerStr(w), cls)
  {
    forall i | 0 <= i < |w| {
      CaseKeepsClasses(w[i]);
    }
  }

  lemma {:induction false} CamelJoinKeepsAbsence(parts: seq<string>)
    requires forall k :: 0 <= k < |parts| ==> NoneIn(parts[k], Separator)
    ensures NoneIn(CamelJoin(parts), Separator)
  {
    if parts != [] {
      UpperFirstKeepsAbsence(parts[0], Separator);
      UpperFirstAllKeepsAbsence(parts[1..]);
    }
  }

  lemma {:induction false} UpperFirstAllKeepsAbsence(parts: seq<string>)
    requires forall k :: 0 <= k < |parts| ==> NoneIn(parts[k], Separator)
    ensures NoneIn(UpperFirstAll(parts), Separator)
    decreases |parts|
  {
    if parts != [] {
      UpperFirstKeepsAbsence(parts[0], Separator);
      UpperFirstAllKeepsAbsence(parts[1..]);
    }
  }

  /** The output of `camel` holds no whitespace, no `_` and no `-`. */
  lemma CamelHasNoSeparator(s: string)
    ensures NoneIn(CamelCase(s), Separator)
  {
    var u := Collapse(Trim(s), DashOrUnderscore, ' ');
    CollapseLeavesNoRun(Trim(s), DashOrUnderscore, ' ');
    SplitKeepsAbsence(u, DashOrUnderscore);
    var parts := SplitWs(u);
    forall k | 0 <= k < |parts|
      ensures NoneIn(parts[k], Separator)
    {
      assert NoneIn(parts[k], Space) && NoneIn(parts[k], DashOrUnderscore);
    }
    CamelJoinKeepsAbsence(parts);
  }

  /** Without a separator there is one piece, and `camel` only lower-cases it. */
  lemma CamelOfUnseparated(s: string)
    requires NoneIn(s, Separator)
    ensures CamelCase(s) == LowerStr(s)
  {
    assert NoneIn(s, Space) && NoneIn(s, DashOrUnderscore);
    TrimIdentity(s);
    assert Trim(s) == s;
    CollapseIdentity(s, DashOrUnderscore, ' ');
    assert Collapse(s, DashOrUnderscore, ' ') == s;
    SplitNoSpace(s);
    assert SplitWs(s) == [s];
    assert CamelJoin([s]) == LowerStr(s) + [];
  }

  /** `camel` is not idempotent: a second application lower-cases the result. */
  lemma CamelTwice(s: string)
    ensures CamelCase(CamelCase(s)) == LowerStr(CamelCase(s))
  {
    CamelHasNoSeparator(s);
    CamelOfUnseparated(CamelCase(s));
  }

  /** `camel` sees the rendered text only through its trimmed form. */
  lemma CamelIgnoresOuterSpace(s: string)
    ensures CamelCase(Trim(s)) == CamelCase(s)
  {
    TrimIdempotent(s);
  }

  /** A non-empty list of non-empty words, none holding whitespace, `_` or `-`. */
  ghost predicate Words(words: seq<string>)
    decreases |words|
  {
    |words| >= 1 && words[0] != [] && NoneIn(words[0], Separator) &&
    (|words| > 1 ==> Words(words[1..]))
  }

  /** Non-empty runs, each made of characters of the class only. */
  ghost predicate Seams(seams: seq<string>, cls: Class)
  {
    forall k :: 0 <= k < |seams| ==> seams[k] != [] && AllIn(seams[k], cls)
  }

  /** `words[0] + seams[0] + words[1] + … + words[n - 1]`: words with a run of
      separators (possibly mixed, possibly longer than one) between each two. */
  function Interleave(words: seq<string>, seams: seq<string>): string
    requires |words| >= 1 && |seams| == |words| - 1
    decreases |words|
  {
    if |words| == 1 then words[0]
    else words[0] + seams[0] + Interleave(words[1..], seams[1..])
  }

  /** Interleaved words start with the first word's first character and end in
      a character that is not a separator, so `trim` leaves them alone. */
  lemma {:induction false} InterleaveEnds(words: seq<string>, seams: seq<string>)
    requires Words(words) && |seams| == |words| - 1
    ensures var j := Interleave(words, seams);
            j != [] && j[0] == words[0][0] && !IsSeparator(j[|j| - 1])
    decreases |words|
  {
    var w := words[0];
    if |words| > 1 {
      InterleaveEnds(words[1..], seams[1..]);
      var tail := Interleave(words[1..], seams[1..]);
      assert Interleave(words, seams) == w + seams[0] + tail;
      assert (w + seams[0] + tail)[|w| + |seams[0]| + |tail| - 1] == tail[|tail| - 1];
    } else {
      assert !In(Separator, w[|w| - 1]);
    }
  }

  lemma {:induction false} JoinKeepsAbsence(words: seq<string>, sep: char, cls: Class)
    requires Words(words) && !In(cls, sep)
    requires cls == Separator || cls == DashOrUnderscore || cls == SpaceOrDash
    ensures NoneIn(JoinWith(words, sep), cls)
    decreases |words|
  {
    if |words| > 1 {
      JoinKeepsAbsence(words[1..], sep, cls);
    }
  }

  /** Every seam, each through the replace on its own. */
  function CollapseSeams(seams: seq<string>, cls: Class, rep: char): (r: seq<string>)
    ensures |r| == |seams|
    ensures forall k :: 0 <= k < |seams| ==> r[k] == Collapse(seams[k], cls, rep)
  {
    seq(|seams|, k requires 0 <= k < |seams| => Collapse(seams[k], cls, rep))
  }

  lemma InterleaveCons(words: seq<string>, seams: seq<string>)
    requires |words| > 1 && |seams| == |words| - 1
    ensures Interleave(words, seams) == words[0] + (seams[0] + Interleave(words[1..], seams[1..]))
  {
  }

  /** After the first seam come more words, starting with a non-separator. */
  lemma InterleaveNext(words: seq<string>, seams: seq<string>)
    requires Words(words) && |words| > 1 && |seams| == |words| - 1
    ensures Words(words[1..])
    ensures var t := Interleave(words[1..], seams[1..]); t != [] && !IsSeparator(t[0])
  {
    InterleaveEnds(words[1..], seams[1..]);
    assert !In(Separator, words[1..][0][0]);
  }

  /** The first word holds none of the separator characters. */
  lemma FirstWordAvoids(words: seq<string>, cls: Class)
    requires Words(words)
    requires cls == Space || cls == DashOrUnderscore || cls == SpaceOrDash
    ensures words[0] != [] && NoneIn(words[0], cls)
  {
  }

  /** One seam of `CollapseInterleave`. */
  lemma CollapseSeamStep(w: string, seam: string, tail: string, cls: Class, rep: char)
    requires NoneIn(w, cls) && (tail == [] || !In(cls, tail[0]))
    ensures Collapse(w + (seam + tail), cls, rep) == w + (Collapse(seam, cls, rep) + Collapse(tail, cls, rep))
  {
    CollapseAppend(seam, tail, cls, rep);
    CollapsePrefix(w, seam + tail, cls, rep);
  }

  /** The words hold no character of the class, so the replace acts on the seams
      alone, each on its own. */
  lemma {:induction false} CollapseInterleave(words: seq<string>, seams: seq<string>, cls: Class, rep: char)
    requires Words(words) && |seams| == |words| - 1
    requires cls == DashOrUnderscore || cls == SpaceOrDash
    ensures Collapse(Interleave(words, seams), cls, rep) == Interleave(words, CollapseSeams(seams, cls, rep))
    decreases |words|
  {
    var w := words[0];
    FirstWordAvoids(words, cls);
    if |words| == 1 {
      CollapseIdentity(w, cls, rep);
    } else {
      var tail := Interleave(words[1..], seams[1..]);
      var cs := CollapseSeams(seams, cls, rep);
      InterleaveNext(words, seams);
      CollapseInterleave(words[1..], seams[1..], cls, rep);
      assert CollapseSeams(seams[1..], cls, rep) == cs[1..];
      CollapseSeamStep(w, seams[0], tail, cls, rep);
      InterleaveCons(words, seams);
      InterleaveCons(words, cs);
    }
  }

  /** A run of whitespace, `_` and `-` becomes a run of whitespace once `camel`
      has turned the `_`/`-` runs into spaces. */
  lemma {:induction false} SeparatorsToSpaces(s: string)
    requires AllIn(s, Separator)
    ensures AllIn(Collapse(s, DashOrUnderscore, ' '), Space)
    ensures s != [] ==> Collapse(s, DashOrUnderscore, ' ') != []
    decreases |s|
  {
    if s != [] {
      if In(DashOrUnderscore, s[0]) {
        var d := DropWhile(s, DashOrUnderscore);
        DropWhileSuffix(s, DashOrUnderscore);
        assert forall i :: 0 <= i < |d| ==> d[i] == s[|s| - |d| + i];
        SeparatorsToSpaces(d);
      } else {
        SeparatorsToSpaces(s[1..]);
      }
    }
  }

  /** Words with whitespace runs between them split back into the same words. */
  lemma {:induction false} SplitInterleaved(words: seq<string>, seams: seq<string>)
    requires Words(words) && |seams| == |words| - 1 && Seams(seams, Space)
    ensures SplitWs(Interleave(words, seams)) == words
    decreases |words|
  {
    var w := words[0];
    assert NoneIn(w, Space);
    if |words| == 1 {
      SplitNoSpace(w);
    } else {
      var tail := Interleave(words[1..], seams[1..]);
      SeamsTail(seams, Space);
      SplitInterleaved(words[1..], seams[1..]);
      InterleaveEnds(words[1..], seams[1..]);
      assert !In(Separator, words[1..][0][0]);
      SplitWordThenSpace(w, seams[0], tail);
      assert Interleave(words, seams) == w + (seams[0] + tail);
      assert [w] + words[1..] == words;
    }
  }

  /** A word, a whitespace run, then text starting with a non-space: the word is
      the first piece. */
  lemma SplitWordThenSpace(w: string, run: string, tail: string)
    requires NoneIn(w, Space) && run != [] && AllIn(run, Space)
    requires tail != [] && !IsSpace(tail[0])
    ensures SplitWs(w + (run + tail)) == [w] + SplitWs(tail)
  {
    SplitPrefix(w, run + tail);
    SplitLeadingSpace(run, tail);
    var rest := SplitWs(run + tail);
    assert rest[0] == [] && rest[1..] == SplitWs(tail);
    assert w + rest[0] == w;
  }

  lemma SplitLeadingSpace(run: string, tail: string)
    requires run != [] && AllIn(run, Space) && tail != [] && !IsSpace(tail[0])
    ensures SplitWs(run + tail) == [[]] + SplitWs(tail)
  {
    DropWhileRun(run, tail, Space);
    assert (run + tail)[0] == run[0];
  }

  /** The `camel` pipeline, stage by stage. */
  lemma CamelStages(s: string, u: string, parts: seq<string>)
    requires Trim(s) == s && Collapse(s, DashOrUnderscore, ' ') == u && SplitWs(u) == parts
    ensures CamelCase(s) == CamelJoin(parts)
  {
  }

  /** Words separated by runs of whitespace, `_` and `-` (mixed freely, of any
      length): the first word is lower-cased, every later one gets an upper-case
      first letter and a lower-cased rest, and all are concatenated. */
  lemma CamelOfWords(words: seq<string>, seams: seq<string>)
    requires Words(words) && |seams| == |words| - 1 && Seams(seams, Separator)
    ensures CamelCase(Interleave(words, seams)) == LowerStr(words[0]) + UpperFirstAll(words[1..])
  {
    var j := Interleave(words, seams);
    var spaced := CollapseSeams(seams, DashOrUnderscore, ' ');
    InterleaveEnds(words, seams);
    assert !In(Separator, words[0][0]);
    TrimIdentity(j);
    CollapseInterleave(words, seams, DashOrUnderscore, ' ');
    forall k | 0 <= k < |spaced|
      ensures spaced[k] != [] && AllIn(spaced[k], Space)
    {
      SeparatorsToSpaces(seams[k]);
    }
    SplitInterleaved(words, spaced);
    CamelStages(j, Interleave(words, spaced), words);
  }

  /** Two words around one separator: the first lower-cased, the second with an
      upper-case first character and a lower-cased rest. */
  lemma CamelTwoWords(a: string, sep: char, b: string)
    requires a != [] && NoneIn(a, Separator)
    requires b != [] && NoneIn(b, Separator)
    requires IsSeparator(sep)
    ensures CamelCase(a + [sep] + b) == LowerStr(a) + UpperFirst(b)
  {
    var words, seams := [a, b], [[sep]];
    assert words[1..] == [b] && seams[1..] == [];
    assert Interleave(words, seams) == a + [sep] + b;
    CamelOfWords(words, seams);
    assert UpperFirstAll([b]) == UpperFirst(b) + [];
  }

  lemma TrimLeadingSeparator(sep: char, w: string)
    requires IsDashOrUnderscore(sep)
    requires w != [] && NoneIn(w, Separator)
    ensures Trim([sep] + w) == [sep] + w
  {
    assert !In(Separator, w[|w| - 1]);
    TrimIdentity([sep] + w);
  }

  lemma CollapseLeadingSeparator(sep: char, w: string)
    requires IsDashOrUnderscore(sep)
    requires w != [] && NoneIn(w, Separator)
    ensures Collapse([sep] + w, DashOrUnderscore, ' ') == [' '] + w
  {
    assert !In(Separator, w[0]);
    CollapseRun([sep], w, DashOrUnderscore, ' ');
    CollapseIdentity(w, DashOrUnderscore, ' ');
  }

  lemma SplitLeadingEmpty(w: string)
    requires w != [] && NoneIn(w, Separator)
    ensures SplitWs([' '] + w) == [[], w]
  {
    assert !In(Separator, w[0]);
    SplitLeadingSpace([' '], w);
    SplitNoSpace(w);
  }

  lemma CamelJoinLeadingEmpty(w: string)
    ensures CamelJoin([[], w]) == UpperFirst(w)
  {
    assert [[], w][1..] == [w] && [w][1..] == [];
    assert LowerStr([]) == [];
    assert UpperFirstAll([w]) == UpperFirst(w) + [];
  }

  /** A leading `_` or `-` survives the trim, becomes a space and then an empty
      first piece, so the first real word is capitalised. */
  lemma CamelLeadingSeparator(sep: char, w: string)
    requires IsDashOrUnderscore(sep)
    requires w != [] && NoneIn(w, Separator)
    ensures CamelCase([sep] + w) == UpperFirst(w)
  {
    TrimLeadingSeparator(sep, w);
    CollapseLeadingSeparator(sep, w);
    SplitLeadingEmpty(w);
    CamelJoinLeadingEmpty(w);
    CamelStages([sep] + w, [' '] + w, [[], w]);
  }

  // ---------------------------------------------------------------------------
  // snake: trim the rendered text, put `_` inside every lower-case-or-digit then
  // upper-case pair, turn each run of whitespace and `-` into one `_`, and
  // lower-case the whole
  // ---------------------------------------------------------------------------

  /** The pair `[a-z0-9][A-Z]` starts at position `i` of `s`. */
  predicate HumpAt(s: string, i: int)
    requires 0 <= i < |s| - 1
  {
    IsLowerOrDigit(s[i]) && IsUpper(s[i + 1])
  }

  predicate HumpAtHead(s: string)
  {
    |s| >= 2 && HumpAt(s, 0)
  }

  /** No `[a-z0-9][A-Z]` pair starts at position `i` of `s` or later. */
  predicate HumpFreeFrom(s: string, i: nat)
    decreases |s| - i
  {
    i + 1 >= |s| || (!HumpAt(s, i) && HumpFreeFrom(s, i + 1))
  }

  /** No `[a-z0-9][A-Z]` pair anywhere in `s`. */
  predicate HumpFree(s: string)
  {
    HumpFreeFrom(s, 0)
  }

  lemma {:induction false} HumpFreeFromAt(s: string, i: nat)
    ensures HumpFreeFrom(s, i) <==> forall j :: i <= j < |s| - 1 ==> !HumpAt(s, j)
    decreases |s| - i
  {
    if i + 1 < |s| {
      HumpFreeFromAt(s, i + 1);
    }
  }

  /** `HumpFree` means what it says: no position starts a hump. */
  lemma HumpFreeAt(s: string)
    ensures HumpFree(s) <==> forall i :: 0 <= i < |s| - 1 ==> !HumpAt(s, i)
  {
    HumpFreeFromAt(s, 0);
  }

  /** Text whose only capital, if any, is its first character has no hump. */
  lemma NoLaterCapitalHumpFree(s: string)
    requires forall i :: 0 < i < |s| ==> !IsUpper(s[i])
    ensures HumpFree(s)
  {
    forall i | 0 <= i < |s| - 1 ensures !HumpAt(s, i) {
      assert !IsUpper(s[i + 1]);
    }
    HumpFreeAt(s);
  }

  /** A character in front of hump-free text leaves it hump-free unless it
      forms a hump with the first character. */
  lemma HumpFreeCons(c: char, t: string)
    requires HumpFree(t)
    requires t == [] || !IsLowerOrDigit(c) || !IsUpper(t[0])
    ensures HumpFree([c] + t)
  {
    var s := [c] + t;
    HumpFreeAt(t);
    forall i | 0 <= i < |s| - 1 ensures !HumpAt(s, i) {
      if i > 0 {
        assert s[i] == t[i - 1] && s[i + 1] == t[i];
        assert !HumpAt(t, i - 1);
      }
    }
    HumpFreeAt(s);
  }
  /** The converse: the first pair of hump-free text is no hump, and the rest is
      hump-free too. */
  lemma HumpFreeTail(s: string)
    requires HumpFree(s) && |s| >= 2
    ensures !HumpAt(s, 0) && HumpFree(s[1..])
  {
    var t := s[1..];
    HumpFreeAt(s);
    forall i | 0 <= i < |t| - 1 ensures !HumpAt(t, i) {
      assert t[i] == s[i + 1] && t[i + 1] == s[i + 2];
      assert !HumpAt(s, i + 1);
    }
    HumpFreeAt(t);
  }


  /** The global replace that puts `_` between a `[a-z0-9]` character and the
      `[A-Z]` character after it, as the regular-expression engine scans: a match
      consumes both of its characters. */
  function BreakHumps(s: string): (r: string)
    ensures |r| >= |s|
    ensures s != [] ==> r != [] && r[0] == s[0]
    decreases |s|
  {
    if HumpAtHead(s) then [s[0], '_', s[1]] + BreakHumps(s[2..])
    else if s == [] then []
    else [s[0]] + BreakHumps(s[1..])
  }

  /** Reference reading of the same replace, one position at a time: an `_` goes
      after position `i` exactly when `s[i]` is `[a-z0-9]` and `s[i + 1]` is `[A-Z]`. */
  function HumpsAt(s: string): string
  {
    if s == [] then []
    else if HumpAtHead(s) then [s[0], '_'] + HumpsAt(s[1..])
    else [s[0]] + HumpsAt(s[1..])
  }

  /** Matches cannot overlap (their second character is upper-case, so it cannot
      start another match), hence the scan equals the per-position reading. */
  lemma {:induction false} BreakHumpsPerPosition(s: string)
    ensures BreakHumps(s) == HumpsAt(s)
    decreases |s|
  {
    if HumpAtHead(s) {
      BreakHumpsPerPosition(s[2..]);
      assert s[1..][1..] == s[2..];
      assert !HumpAtHead(s[1..]);
    } else if s != [] {
      BreakHumpsPerPosition(s[1..]);
    }
  }

  /** After the replace no `[a-z0-9][A-Z]` pair is left. */
  lemma {:induction false} BreakHumpsLeavesNoHump(s: string)
    ensures HumpFree(BreakHumps(s))
    decreases |s|
  {
    if HumpAtHead(s) {
      var t := BreakHumps(s[2..]);
      BreakHumpsLeavesNoHump(s[2..]);
      HumpFreeCons(s[1], t);
      HumpFreeCons('_', [s[1]] + t);
      HumpFreeCons(s[0], ['_'] + ([s[1]] + t));
      assert [s[0], '_', s[1]] + t == [s[0]] + (['_'] + ([s[1]] + t));
    } else if s != [] {
      BreakHumpsLeavesNoHump(s[1..]);
      HumpFreeCons(s[0], BreakHumps(s[1..]));
    }
  }

  /** Without upper-case letters there is no hump to break. */
  lemma {:induction false} BreakHumpsIdentity(s: string)
    requires NoneIn(s, Upper)
    ensures BreakHumps(s) == s
    decreases |s|
  {
    if s != [] {
      BreakHumpsIdentity(s[1..]);
    }
  }

  /** A string without humps gets no underscore. */
  lemma {:induction false} HumpsAtIdentity(s: string)
    requires HumpFree(s)
    ensures HumpsAt(s) == s
    decreases |s|
  {
    if |s| >= 2 {
      HumpFreeTail(s);
      HumpsAtIdentity(s[1..]);
    } else if s != [] {
      assert s[1..] == [];
    }
  }

  /** Breaking the humps of `a + b`: those of `a`, an `_` if the seam is itself a
      hump, then those of `b`. */
  lemma HumpsAtAppend(a: string, b: string)
    requires a != []
    ensures HumpsAt(a + b) ==
              HumpsAt(a) + (if IsLowerOrDigit(a[|a| - 1]) && b != [] && IsUpper(b[0]) then "_" else "") + HumpsAt(b)
  {
    if IsLowerOrDigit(a[|a| - 1]) && b != [] && IsUpper(b[0]) {
      HumpsAtAppendSeam(a, b);
    } else {
      HumpsAtAppendNoSeam(a, b);
      assert HumpsAt(a) + "" == HumpsAt(a);
    }
  }

  /** When the seam is no hump, nothing is inserted there. */
  lemma {:induction false} HumpsAtAppendNoSeam(a: string, b: string)
    requires a != [] && (b == [] || !IsLowerOrDigit(a[|a| - 1]) || !IsUpper(b[0]))
    ensures HumpsAt(a + b) == HumpsAt(a) + HumpsAt(b)
    decreases |a|
  {
    if |a| == 1 {
      HumpsAtLast(a[0], b);
      assert a == [a[0]];
    } else {
      assert a[1..][|a[1..]| - 1] == a[|a| - 1];
      HumpsAtAppendNoSeam(a[1..], b);
      HumpsAtStep(a, b);
    }
  }

  /** When the seam is a hump, one `_` is inserted there. */
  lemma {:induction false} HumpsAtAppendSeam(a: string, b: string)
    requires a != [] && IsLowerOrDigit(a[|a| - 1]) && b != [] && IsUpper(b[0])
    ensures HumpsAt(a + b) == HumpsAt(a) + "_" + HumpsAt(b)
    decreases |a|
  {
    if |a| == 1 {
      HumpsAtLast(a[0], b);
      assert a == [a[0]];
    } else {
      assert a[1..][|a[1..]| - 1] == a[|a| - 1];
      HumpsAtAppendSeam(a[1..], b);
      HumpsAtStep(a, b);
    }
  }

  /** The last character of `a` meets `b`: an `_` exactly when the two form a hump. */
  lemma HumpsAtLast(c: char, b: string)
    ensures HumpsAt([c] + b) ==
              HumpsAt([c]) + (if IsLowerOrDigit(c) && b != [] && IsUpper(b[0]) then "_" else "") + HumpsAt(b)
  {
    assert ([c] + b)[0] == c && ([c] + b)[1..] == b;
    assert [c][1..] == [];
  }

  /** The first character of `a + b` with `|a| > 1` is treated as it is in `a`. */
  lemma HumpsAtStep(a: string, b: string)
    requires |a| > 1
    ensures var head := if HumpAtHead(a) then [a[0], '_'] else [a[0]];
            HumpsAt(a + b) == head + HumpsAt(a[1..] + b) && HumpsAt(a) == head + HumpsAt(a[1..])
  {
    assert (a + b)[0] == a[0] && (a + b)[1] == a[1] && (a + b)[1..] == a[1..] + b;
    assert HumpAtHead(a + b) == HumpAtHead(a);
  }

  /** Every word is hump-free. */
  ghost predicate AllHumpFree(words: seq<string>)
    decreases |words|
  {
    words == [] || (HumpFree(words[0]) && AllHumpFree(words[1..]))
  }

  /** Hump-free words with runs of whitespace and `-` between them have no hump
      to break: a seam character is neither `[a-z0-9]` nor `[A-Z]`. */
  lemma {:induction false} InterleaveHumpsAt(words: seq<string>, seams: seq<string>)
    requires Words(words) && AllHumpFree(words)
    requires |seams| == |words| - 1 && Seams(seams, SpaceOrDash)
    ensures HumpsAt(Interleave(words, seams)) == Interleave(words, seams)
    decreases |words|
  {
    var w := words[0];
    if |words| == 1 {
      HumpsAtIdentity(w);
    } else {
      var tail := Interleave(words[1..], seams[1..]);
      SeamsTail(seams, SpaceOrDash);
      InterleaveNext(words, seams);
      InterleaveHumpsAt(words[1..], seams[1..]);
      HumpsAtRunSeam(w, seams[0], tail);
      InterleaveCons(words, seams);
    }
  }

  lemma SeamsTail(seams: seq<string>, cls: Class)
    requires Seams(seams, cls) && seams != []
    ensures Seams(seams[1..], cls)
  {
    forall k | 0 <= k < |seams[1..]|
      ensures seams[1..][k] != [] && AllIn(seams[1..][k], cls)
    {
      assert seams[1..][k] == seams[k + 1];
    }
  }

  /** One seam of `InterleaveHumpsAt`: a hump-free word, a run of whitespace
      and `-`, then text that has no hump to break. */
  lemma HumpsAtRunSeam(w: string, seam: string, tail: string)
    requires w != [] && HumpFree(w) && HumpsAt(tail) == tail
    requires seam != [] && AllIn(seam, SpaceOrDash)
    ensures HumpsAt(w + (seam + tail)) == w + (seam + tail)
  {
    HumpsAtIdentity(w);
    NoLaterCapitalHumpFree(seam);
    HumpsAtIdentity(seam);
    assert In(SpaceOrDash, seam[|seam| - 1]) && In(SpaceOrDash, seam[0]);
    HumpsAtAppendNoSeam(seam, tail);
    assert (seam + tail)[0] == seam[0];
    HumpsAtAppendNoSeam(w, seam + tail);
  }

  /** The words concatenated with nothing between them. */
  function Concat(words: seq<string>): string
  {
    if words == [] then [] else words[0] + Concat(words[1..])
  }

  /** Hump-free words glued at humps: each ends in `[a-z0-9]` and the next starts
      with `[A-Z]`, as in `InboundRoute` or `mailAlias`. */
  ghost predicate HumpWords(words: seq<string>)
    decreases |words|
  {
    |words| >= 1 && words[0] != [] && NoneIn(words[0], Separator) && HumpFree(words[0]) &&
    (|words| > 1 ==>
       IsLowerOrDigit(words[0][|words[0]| - 1]) && words[1] != [] && IsUpper(words[1][0]) &&
       HumpWords(words[1..]))
  }

  lemma {:induction false} HumpWordsAreWords(words: seq<string>)
    requires HumpWords(words)
    ensures Words(words) && AllHumpFree(words)
    decreases |words|
  {
    if |words| > 1 {
      HumpWordsAreWords(words[1..]);
    } else {
      assert words[1..] == [];
    }
  }

  lemma {:induction false} ConcatEnds(words: seq<string>)
    requires Words(words)
    ensures var c := Concat(words);
            c != [] && c[0] == words[0][0] && !IsSeparator(c[|c| - 1])
    decreases |words|
  {
    var w := words[0];
    if |words| > 1 {
      ConcatEnds(words[1..]);
      var tail := Concat(words[1..]);
      assert Concat(words) == w + tail;
      assert (w + tail)[|w| + |tail| - 1] == tail[|tail| - 1];
    } else {
      assert Concat(words) == w + [] == w;
      assert !In(Separator, w[|w| - 1]);
    }
  }

  /** Each seam between hump-glued words gets one underscore. */
  lemma {:induction false} ConcatHumpsAt(words: seq<string>)
    requires HumpWords(words)
    ensures HumpsAt(Concat(words)) == JoinWith(words, '_')
    decreases |words|
  {
    var w := words[0];
    HumpsAtIdentity(w);
    if |words| == 1 {
      assert Concat(words) == w + [] == w;
    } else {
      HumpWordsAreWords(words[1..]);
      ConcatEnds(words[1..]);
      ConcatHumpsAt(words[1..]);
      HumpsAtAppend(w, Concat(words[1..]));
    }
  }

  /** `snake` on the rendered text. */
  function SnakeCase(s: string): string
  {
    LowerStr(Collapse(BreakHumps(Trim(s)), SpaceOrDash, '_'))
  }

  /** The `snake` pipeline, stage by stage. */
  lemma SnakeStages(s: string, h: string, c: string)
    requires Trim(s) == s && BreakHumps(s) == h && Collapse(h, SpaceOrDash, '_') == c
    ensures SnakeCase(s) == LowerStr(c)
  {
  }

  /** The output of `snake` holds no upper-case letter, no whitespace and no `-`. */
  lemma SnakeIsClean(s: string)
    ensures NoneIn(SnakeCase(s), Upper) && NoneIn(SnakeCase(s), SpaceOrDash)
  {
    var c := Collapse(BreakHumps(Trim(s)), SpaceOrDash, '_');
    CollapseLeavesNoRun(BreakHumps(Trim(s)), SpaceOrDash, '_');
    forall i | 0 <= i < |c| {
      CaseKeepsClasses(c[i]);
    }
  }

  /** The fixed points of `snake` are exactly the strings with no upper-case
      letter, no whitespace and no `-`; underscores, even in runs, are kept. */
  lemma SnakeFixedPoints(s: string)
    ensures SnakeCase(s) == s <==> NoneIn(s, Upper) && NoneIn(s, SpaceOrDash)
  {
    if NoneIn(s, Upper) && NoneIn(s, SpaceOrDash) {
      TrimIdentity(s);
      BreakHumpsIdentity(s);
      CollapseIdentity(s, SpaceOrDash, '_');
      LowerStrIdentity(s);
    }
    SnakeIsClean(s);
  }

  lemma SnakeIdempotent(s: string)
    ensures SnakeCase(SnakeCase(s)) == SnakeCase(s)
  {
    SnakeIsClean(s);
    SnakeFixedPoints(SnakeCase(s));
  }

  /** `snake` sees the rendered text only through its trimmed form. */
  lemma SnakeIgnoresOuterSpace(s: string)
    ensures SnakeCase(Trim(s)) == SnakeCase(s)
  {
    TrimIdempotent(s);
  }

  /** With every seam a whole run of the class, each seam becomes one `rep`. */
  lemma {:induction false} CollapseInterleaveRuns(words: seq<string>, seams: seq<string>, cls: Class, rep: char)
    requires Words(words) && |seams| == |words| - 1 && Seams(seams, cls)
    requires cls == DashOrUnderscore || cls == SpaceOrDash
    ensures Collapse(Interleave(words, seams), cls, rep) == JoinWith(words, rep)
    decreases |words|
  {
    var w := words[0];
    FirstWordAvoids(words, cls);
    if |words| == 1 {
      CollapseIdentity(w, cls, rep);
    } else {
      var tail := Interleave(words[1..], seams[1..]);
      SeamsTail(seams, cls);
      InterleaveNext(words, seams);
      CollapseInterleaveRuns(words[1..], seams[1..], cls, rep);
      CollapseRunSeamStep(w, seams[0], tail, cls, rep);
      InterleaveCons(words, seams);
    }
  }

  /** One seam of `CollapseInterleaveRuns`. */
  lemma CollapseRunSeamStep(w: string, seam: string, tail: string, cls: Class, rep: char)
    requires NoneIn(w, cls) && seam != [] && AllIn(seam, cls)
    requires tail == [] || !In(cls, tail[0])
    ensures Collapse(w + (seam + tail), cls, rep) == w + [rep] + Collapse(tail, cls, rep)
  {
    CollapseRun(seam, tail, cls, rep);
    CollapsePrefix(w, seam + tail, cls, rep);
  }

  /** Words separated by runs of whitespace and `-` (mixed freely, of any length)
      come out lower-cased and joined by one `_` each. */
  lemma SnakeOfWords(words: seq<string>, seams: seq<string>)
    requires Words(words) && AllHumpFree(words)
    requires |seams| == |words| - 1 && Seams(seams, SpaceOrDash)
    ensures SnakeCase(Interleave(words, seams)) == LowerStr(JoinWith(words, '_'))
  {
    var j := Interleave(words, seams);
    InterleaveEnds(words, seams);
    assert !In(Separator, words[0][0]);
    TrimIdentity(j);
    InterleaveHumpsAt(words, seams);
    BreakHumpsPerPosition(j);
    CollapseInterleaveRuns(words, seams, SpaceOrDash, '_');
  }

  /** camelCase and PascalCase words come out lower-cased and joined by `_`. */
  lemma SnakeOfHumpWords(words: seq<string>)
    requires HumpWords(words)
    ensures SnakeCase(Concat(words)) == LowerStr(JoinWith(words, '_'))
  {
    var c, j := Concat(words), JoinWith(words, '_');
    HumpWordsAreWords(words);
    assert Trim(c) == c by {
      ConcatEnds(words);
      assert !In(Separator, words[0][0]);
      TrimIdentity(c);
    }
    assert BreakHumps(c) == j by {
      BreakHumpsPerPosition(c);
      ConcatHumpsAt(words);
    }
    assert Collapse(j, SpaceOrDash, '_') == j by {
      JoinKeepsAbsence(words, '_', SpaceOrDash);
      CollapseIdentity(j, SpaceOrDash, '_');
    }
    SnakeStages(c, j, j);
  }

  /** Two hump-free words around whitespace or `-`: lower-cased, joined by `_`. */
  lemma SnakeTwoWords(a: string, sep: char, b: string)
    requires a != [] && NoneIn(a, Separator) && HumpFree(a)
    requires b != [] && NoneIn(b, Separator) && HumpFree(b)
    requires IsSpaceOrDash(sep)
    ensures SnakeCase(a + [sep] + b) == LowerStr(a) + "_" + LowerStr(b)
  {
    var words, seams := [a, b], [[sep]];
    assert SnakeCase(a + [sep] + b) == LowerStr(a + "_" + b) by {
      assert words[1..] == [b] && [b][1..] == [] && seams[1..] == [];
      assert Interleave(words, seams) == a + [sep] + b;
      assert JoinWith(words, '_') == a + "_" + b;
      SnakeOfWords(words, seams);
    }
    LowerAroundUnderscore(a, b);
  }

  lemma LowerAroundUnderscore(a: string, b: string)
    ensures LowerStr(a + "_" + b) == LowerStr(a) + "_" + LowerStr(b)
  {
    LowerStrAppend(a + "_", b);
    LowerStrAppend(a, "_");
  }

  /** Two hump-free words glued at a hump (`[a-z0-9]` then `[A-Z]`): an `_` goes
      between them and everything is lower-cased. */
  lemma SnakeHump(a: string, b: string)
    requires a != [] && NoneIn(a, Separator) && HumpFree(a) && IsLowerOrDigit(a[|a| - 1])
    requires b != [] && NoneIn(b, Separator) && HumpFree(b) && IsUpper(b[0])
    ensures SnakeCase(a + b) == LowerStr(a) + "_" + LowerStr(b)
  {
    var words := [a, b];
    assert HumpWords(words) by {
      assert words[1..] == [b] && [b][1..] == [];
    }
    assert SnakeCase(a + b) == LowerStr(a + "_" + b) by {
      assert Concat(words) == a + b by {
        assert words[1..] == [b] && [b][1..] == [];
        assert Concat([b]) == b + [];
      }
      assert JoinWith(words, '_') == a + "_" + b by {
        assert words[1..] == [b];
      }
      SnakeOfHumpWords(words);
    }
    LowerAroundUnderscore(a, b);
  }
}
