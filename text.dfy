/**
  The JavaScript string primitives that the helpers of templates/input.ts chain
  together, as functions on `string` (`seq<char>`): `trim`, a global `replace` of a
  one-or-more character-class run, `split(/\s+/)`, and `toLowerCase`.
 */
module Text {
  import opened Chars

  /** No character of `s` is in the class. */
  ghost predicate NoneIn(s: string, cls: Class) {
    forall i :: 0 <= i < |s| ==> !In(cls, s[i])
  }

  /** Every character of `s` is in the class. */
  ghost predicate AllIn(s: string, cls: Class) {
    forall i :: 0 <= i < |s| ==> In(cls, s[i])
  }

  /** What is left of `s` once its leading run of characters of the class is removed. */
  function DropWhile(s: string, cls: Class): (r: string)
    ensures |r| <= |s|
    ensures r == [] || !In(cls, r[0])
    ensures s != [] && In(cls, s[0]) ==> |r| < |s|
  {
    if s != [] && In(cls, s[0]) then DropWhile(s[1..], cls) else s
  }

  /** What `DropWhile` leaves is a suffix of `s`. */
  lemma {:induction false} DropWhileSuffix(s: string, cls: Class)
    ensures DropWhile(s, cls) == s[|s| - |DropWhile(s, cls)|..]
    decreases |s|
  {
    if s != [] && In(cls, s[0]) {
      DropWhileSuffix(s[1..], cls);
    }
  }

  /** Everything `DropWhile` removes is in the class. */
  lemma {:induction false} DropWhileRemovesRun(s: string, cls: Class)
    ensures AllIn(s[..|s| - |DropWhile(s, cls)|], cls)
    decreases |s|
  {
    if s != [] && In(cls, s[0]) {
      DropWhileRemovesRun(s[1..], cls);
      var k := |s| - |DropWhile(s, cls)|;
      assert s[..k] == [s[0]] + s[1..][..k - 1];
    }
  }

  /** What is left of `s` once its trailing whitespace is removed. */
  function TrimEnd(s: string): (r: string)
    ensures |r| <= |s| && r == s[..|r|]
    ensures AllIn(s[|r|..], Space)
    ensures r == [] || !IsSpace(r[|r| - 1])
  {
    if s != [] && IsSpace(s[|s| - 1]) then TrimEnd(s[..|s| - 1]) else s
  }

  /** `String.prototype.trim`: leading and trailing whitespace removed. */
  function Trim(s: string): (r: string)
    ensures |r| <= |s|
    ensures r == [] || (!IsSpace(r[0]) && !IsSpace(r[|r| - 1]))
  {
    TrimEnd(DropWhile(s, Space))
  }

  /** `trim` removes whitespace only, and only at the two ends: `s` is some
      whitespace, then `Trim(s)`, then some whitespace. */
  lemma TrimRemovesOnlyOuterSpace(s: string)
    ensures var k := |s| - |DropWhile(s, Space)|;
            k + |Trim(s)| <= |s| && AllIn(s[..k], Space) &&
            s[k..k + |Trim(s)|] == Trim(s) && AllIn(s[k + |Trim(s)|..], Space)
  {
    var d := DropWhile(s, Space);
    var k := |s| - |d|;
    DropWhileRemovesRun(s, Space);
    DropWhileSuffix(s, Space);
    assert s[k..] == d;
    assert s[k + |Trim(s)|..] == d[|Trim(s)|..];
  }

  /** A string that neither starts nor ends with whitespace is left alone by `trim`. */
  lemma TrimIdentity(s: string)
    requires s == [] || (!IsSpace(s[0]) && !IsSpace(s[|s| - 1]))
    ensures Trim(s) == s
  {
    assert DropWhile(s, Space) == s;
  }

  lemma {:induction false} TrimEndRun(s: string, post: string)
    requires s == [] || !IsSpace(s[|s| - 1])
    requires AllIn(post, Space)
    ensures TrimEnd(s + post) == s
    decreases |post|
  {
    if post == [] {
      assert s + post == s;
    } else {
      var p := post[..|post| - 1];
      assert (s + post)[..|s + post| - 1] == s + p;
      TrimEndRun(s, p);
    }
  }

  /** Whitespace around a string that neither starts nor ends with whitespace is
      exactly what `trim` removes. */
  lemma TrimPadded(pre: string, s: string, post: string)
    requires AllIn(pre, Space) && AllIn(post, Space)
    requires s != [] && !IsSpace(s[0]) && !IsSpace(s[|s| - 1])
    ensures Trim(pre + s + post) == s
  {
    assert pre + s + post == pre + (s + post);
    DropWhileRun(pre, s + post, Space);
    TrimEndRun(s, post);
  }

  lemma TrimIdempotent(s: string)
    ensures Trim(Trim(s)) == Trim(s)
  {
    TrimIdentity(Trim(s));
  }

  /** `s.replace(/[class]+/g, rep)`: every maximal run of characters of the class
      becomes the single character `rep`. */
  function Collapse(s: string, cls: Class, rep: char): (r: string)
    decreases |s|
  {
    if s == [] then []
    else if In(cls, s[0]) then [rep] + Collapse(DropWhile(s, cls), cls, rep)
    else [s[0]] + Collapse(s[1..], cls, rep)
  }

  /** The replacement character is the only trace a run leaves. */
  lemma {:induction false} CollapseLeavesNoRun(s: string, cls: Class, rep: char)
    requires !In(cls, rep)
    ensures NoneIn(Collapse(s, cls, rep), cls)
    decreases |s|
  {
    if s == [] {
    } else if In(cls, s[0]) {
      CollapseLeavesNoRun(DropWhile(s, cls), cls, rep);
    } else {
      CollapseLeavesNoRun(s[1..], cls, rep);
    }
  }

  /** A string with no character of the class has no run to replace. */
  lemma {:induction false} CollapseIdentity(s: string, cls: Class, rep: char)
    requires NoneIn(s, cls)
    ensures Collapse(s, cls, rep) == s
    decreases |s|
  {
    if s != [] {
      CollapseIdentity(s[1..], cls, rep);
    }
  }

  /** A character outside the class passes through unchanged. */
  lemma CollapseCons(c: char, y: string, cls: Class, rep: char)
    requires !In(cls, c)
    ensures Collapse([c] + y, cls, rep) == [c] + Collapse(y, cls, rep)
  {
    assert ([c] + y)[1..] == y;
  }

  /** A prefix free of the class passes through unchanged. */
  lemma {:induction false} CollapsePrefix(w: string, x: string, cls: Class, rep: char)
    requires NoneIn(w, cls)
    ensures Collapse(w + x, cls, rep) == w + Collapse(x, cls, rep)
    decreases |w|
  {
    if w == [] {
      assert w + x == x;
    } else {
      var c, v := w[0], w[1..];
      assert NoneIn(v, cls) && !In(cls, c);
      CollapsePrefix(v, x, cls, rep);
      CollapseCons(c, v + x, cls, rep);
      assert w + x == [c] + (v + x);
      assert w == [c] + v;
    }
  }

  lemma {:induction false} DropWhileRun(run: string, x: string, cls: Class)
    requires AllIn(run, cls)
    requires x == [] || !In(cls, x[0])
    ensures DropWhile(run + x, cls) == x
    decreases |run|
  {
    if run != [] {
      assert (run + x)[1..] == run[1..] + x;
      DropWhileRun(run[1..], x, cls);
    }
  }

  /** A whole run, up to a character outside the class, becomes one `rep`. */
  lemma CollapseRun(run: string, x: string, cls: Class, rep: char)
    requires run != [] && AllIn(run, cls)
    requires x == [] || !In(cls, x[0])
    ensures Collapse(run + x, cls, rep) == [rep] + Collapse(x, cls, rep)
  {
    DropWhileRun(run, x, cls);
  }

  /** Removing a leading run stops at a character outside the class, so what
      follows such a character is carried along unchanged. */
  lemma {:induction false} DropWhileAppend(a: string, x: string, cls: Class)
    requires x == [] || !In(cls, x[0])
    ensures DropWhile(a + x, cls) == DropWhile(a, cls) + x
    decreases |a|
  {
    if a == [] {
      assert a + x == x;
    } else if In(cls, a[0]) {
      assert (a + x)[0] == a[0] && (a + x)[1..] == a[1..] + x;
      DropWhileAppend(a[1..], x, cls);
    }
  }

  /** The replace works run by run: cut where the second part starts outside
      the class, it is the replace of each part, concatenated. */
  lemma {:induction false} CollapseAppend(a: string, x: string, cls: Class, rep: char)
    requires x == [] || !In(cls, x[0])
    ensures Collapse(a + x, cls, rep) == Collapse(a, cls, rep) + Collapse(x, cls, rep)
    decreases |a|
  {
    if a == [] {
      assert a + x == x;
    } else if In(cls, a[0]) {
      var d := DropWhile(a, cls);
      CollapseAppend(d, x, cls, rep);
      DropWhileAppend(a, x, cls);
      CollapseAppendRun(a, x, cls, rep);
    } else {
      CollapseAppend(a[1..], x, cls, rep);
      CollapseAppendOther(a[0], a[1..], x, cls, rep);
      assert a == [a[0]] + a[1..];
    }
  }

  /** One step of `CollapseAppend` when `a` starts with a run. */
  lemma CollapseAppendRun(a: string, x: string, cls: Class, rep: char)
    requires a != [] && In(cls, a[0])
    requires DropWhile(a + x, cls) == DropWhile(a, cls) + x
    requires Collapse(DropWhile(a, cls) + x, cls, rep) == Collapse(DropWhile(a, cls), cls, rep) + Collapse(x, cls, rep)
    ensures Collapse(a + x, cls, rep) == Collapse(a, cls, rep) + Collapse(x, cls, rep)
  {
    assert (a + x)[0] == a[0];
  }

  /** One step of `CollapseAppend` when `a` starts outside the class. */
  lemma CollapseAppendOther(c: char, v: string, x: string, cls: Class, rep: char)
    requires !In(cls, c)
    requires Collapse(v + x, cls, rep) == Collapse(v, cls, rep) + Collapse(x, cls, rep)
    ensures Collapse([c] + v + x, cls, rep) == Collapse([c] + v, cls, rep) + Collapse(x, cls, rep)
  {
    assert [c] + v + x == [c] + (v + x);
    CollapseCons(c, v + x, cls, rep);
    CollapseCons(c, v, cls, rep);
  }

  /** `s.split(/\s+/)`: the pieces between maximal whitespace runs, with an empty
      first (last) piece when `s` starts (ends) with whitespace, and `[""]` for `""`. */
  function SplitWs(s: string): (parts: seq<string>)
    ensures |parts| >= 1
    ensures forall k :: 0 <= k < |parts| ==> NoneIn(parts[k], Space)
    ensures forall k :: 0 < k < |parts| - 1 ==> parts[k] != []
    ensures s != [] && !IsSpace(s[0]) ==> parts[0] != []
    decreases |s|
  {
    if s == [] then [[]]
    else if IsSpace(s[0]) then [[]] + SplitWs(DropWhile(s, Space))
    else
      var rest := SplitWs(s[1..]);
      [[s[0]] + rest[0]] + rest[1..]
  }

  /** Every piece of the split is made of characters of `s`: a class that `s`
      avoids, every piece avoids. */
  lemma {:induction false} SplitKeepsAbsence(s: string, other: Class)
    requires NoneIn(s, other)
    ensures forall k :: 0 <= k < |SplitWs(s)| ==> NoneIn(SplitWs(s)[k], other)
    decreases |s|
  {
    if s == [] {
    } else if IsSpace(s[0]) {
      var d := DropWhile(s, Space);
      DropWhileSuffix(s, Space);
      assert forall i :: 0 <= i < |d| ==> d[i] == s[|s| - |d| + i];
      SplitKeepsAbsence(d, other);
    } else {
      SplitKeepsAbsence(s[1..], other);
    }
  }

  /** `parts.join(sep)` for a one-character separator. */
  function JoinWith(parts: seq<string>, sep: char): string
  {
    if |parts| == 0 then []
    else if |parts| == 1 then parts[0]
    else parts[0] + [sep] + JoinWith(parts[1..], sep)
  }

  /** Splitting on whitespace and joining with one space is collapsing every
      whitespace run to one space; since no piece holds whitespace, this
      determines the pieces. */
  lemma {:induction false} SplitJoin(s: string)
    ensures JoinWith(SplitWs(s), ' ') == Collapse(s, Space, ' ')
    decreases |s|
  {
    if s == [] {
    } else if IsSpace(s[0]) {
      var d := DropWhile(s, Space);
      SplitJoin(d);
      JoinCons([], SplitWs(d), ' ');
    } else {
      SplitJoin(s[1..]);
      JoinGlue([s[0]], SplitWs(s[1..]), ' ');
    }
  }

  lemma JoinCons(w: string, rest: seq<string>, sep: char)
    requires |rest| >= 1
    ensures JoinWith([w] + rest, sep) == w + [sep] + JoinWith(rest, sep)
  {
    assert ([w] + rest)[1..] == rest;
  }

  /** Gluing `w` onto the first piece prefixes the join with `w`. */
  lemma JoinGlue(w: string, parts: seq<string>, sep: char)
    requires |parts| >= 1
    ensures JoinWith([w + parts[0]] + parts[1..], sep) == w + JoinWith(parts, sep)
  {
    if |parts| > 1 {
      JoinCons(w + parts[0], parts[1..], sep);
    }
  }

  /** A string without whitespace is one piece. */
  lemma SplitNoSpace(w: string)
    requires NoneIn(w, Space)
    ensures SplitWs(w) == [w]
  {
    SplitJoin(w);
    CollapseIdentity(w, Space, ' ');
  }

  /** A whitespace-free prefix glues onto the first piece. */
  lemma {:induction false} SplitPrefix(w: string, x: string)
    requires NoneIn(w, Space)
    ensures SplitWs(w + x) == [w + SplitWs(x)[0]] + SplitWs(x)[1..]
    decreases |w|
  {
    if w != [] {
      assert (w + x)[0] == w[0] && !IsSpace(w[0]);
      assert (w + x)[1..] == w[1..] + x;
      SplitPrefix(w[1..], x);
      var rest := SplitWs(w[1..] + x);
      assert SplitWs(w + x) == [[w[0]] + rest[0]] + rest[1..];
      assert [w[0]] + (w[1..] + SplitWs(x)[0]) == w + SplitWs(x)[0];
    } else {
      assert w + x == x;
      assert w + SplitWs(x)[0] == SplitWs(x)[0];
      assert SplitWs(x) == [SplitWs(x)[0]] + SplitWs(x)[1..];
    }
  }

  /** `toLowerCase`, character by character. */
  function LowerStr(s: string): (r: string)
    ensures |r| == |s|
    ensures forall i :: 0 <= i < |s| ==> r[i] == ToLower(s[i])
  {
    seq(|s|, i requires 0 <= i < |s| => ToLower(s[i]))
  }

  lemma LowerStrAppend(a: string, b: string)
    ensures LowerStr(a + b) == LowerStr(a) + LowerStr(b)
  {
    assert LowerStr(a + b) == LowerStr(a) + LowerStr(b);
  }

  /** A string with no upper-case letter is its own lower-casing. */
  lemma LowerStrIdentity(s: string)
    requires NoneIn(s, Upper)
    ensures LowerStr(s) == s
  {
  }

  /** Lower-casing leaves no upper-case letter. */
  lemma LowerStrNoUpper(s: string)
    ensures NoneIn(LowerStr(s), Upper)
  {
  }
}
