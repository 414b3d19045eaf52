/** The JavaScript string built-ins that src/hooks/use-string.tsx relies on, over
    `seq<char>`: ASCII case mapping (`toLowerCase`, `toUpperCase`), the character classes
    of its three regular expressions, `split` on runs of separators, `join`, and the
    global `replace` of separator runs by one character. */
module Words {

  // ---------------------------------------------------------------------------
  // Characters

  predicate IsUpper(c: char) { 'A' <= c <= 'Z' }

  predicate IsLower(c: char) { 'a' <= c <= 'z' }

  /** The code points the regular-expression class `\s` matches: the ECMAScript
      WhiteSpace and LineTerminator characters. */
  predicate IsWhiteSpace(c: char) {
    || c == '\t' || c == '\n' || c == '\U{B}' || c == '\U{C}' || c == '\r' || c == ' '
    || c == '\U{A0}' || c == '\U{1680}' || '\U{2000}' <= c <= '\U{200A}'
    || c == '\U{2028}' || c == '\U{2029}' || c == '\U{202F}' || c == '\U{205F}'
    || c == '\U{3000}' || c == '\U{FEFF}'
  }

  /** The three character classes whose runs the hook splits on or replaces. */
  datatype Separators =
    | WordBreaks  // `[-_\s]`, the `split` of pascal-case and camel-case
    | KebabRuns   // `[\s_]`, the `replace` of kebab-case
    | SnakeRuns   // `[\s-]`, the `replace` of snake-case

  predicate IsSeparator(c: char, k: Separators) {
    match k
    case WordBreaks => c == '-' || c == '_' || IsWhiteSpace(c)
    case KebabRuns => c == '_' || IsWhiteSpace(c)
    case SnakeRuns => c == '-' || IsWhiteSpace(c)
  }

  /** `[-_\s]` is `[\s_]` with `-` added and `[\s-]` with `_` added; `-` and `_` are not
      white space, and no ASCII letter or digit is a separator of any class. */
  lemma SeparatorClasses(c: char)
    ensures IsSeparator(c, WordBreaks) <==> IsSeparator(c, KebabRuns) || c == '-'
    ensures IsSeparator(c, WordBreaks) <==> IsSeparator(c, SnakeRuns) || c == '_'
    ensures IsSeparator(c, KebabRuns) <==> IsWhiteSpace(c) || c == '_'
    ensures IsSeparator(c, SnakeRuns) <==> IsWhiteSpace(c) || c == '-'
    ensures !IsWhiteSpace('-') && !IsWhiteSpace('_')
    ensures IsUpper(c) || IsLower(c) || '0' <= c <= '9' ==> !IsSeparator(c, WordBreaks)
  {
  }

  /** ASCII lower-casing of one character; every other character is kept. */
  function LowerChar(c: char): (r: char)
    ensures !IsUpper(r)
    ensures IsUpper(c) ==> IsLower(r) && r as int - 'a' as int == c as int - 'A' as int
    ensures !IsUpper(c) ==> r == c
  {
    if IsUpper(c) then (c as int - 'A' as int + 'a' as int) as char else c
  }

  /** ASCII upper-casing of one character; every other character is kept. */
  function UpperChar(c: char): (r: char)
    ensures !IsLower(r)
    ensures IsLower(c) ==> IsUpper(r) && r as int - 'A' as int == c as int - 'a' as int
    ensures !IsLower(c) ==> r == c
  {
    if IsLower(c) then (c as int - 'a' as int + 'A' as int) as char else c
  }

  /** Case mapping never turns a separator into a non-separator or back. */
  lemma CaseKeepsSeparators(c: char, k: Separators)
    ensures IsSeparator(LowerChar(c), k) == IsSeparator(c, k)
    ensures IsSeparator(UpperChar(c), k) == IsSeparator(c, k)
  {
  }

  // ---------------------------------------------------------------------------
  // Whole-string case mapping

  /** `s.toLowerCase()`: only upper-case letters change, each into the lower-case letter
      with the same upper-case form, so no upper-case letter is left. */
  function Lower(s: string): (r: string)
    ensures |r| == |s|
    ensures forall i :: 0 <= i < |s| ==>
      !IsUpper(r[i]) && (r[i] == s[i] || IsUpper(s[i])) && UpperChar(r[i]) == UpperChar(s[i])
  {
    seq(|s|, i requires 0 <= i < |s| => LowerChar(s[i]))
  }

  /** `s.toUpperCase()`: only lower-case letters change, each into the upper-case letter
      with the same lower-case form, so no lower-case letter is left. */
  function Upper(s: string): (r: string)
    ensures |r| == |s|
    ensures forall i :: 0 <= i < |s| ==>
      !IsLower(r[i]) && (r[i] == s[i] || IsLower(s[i])) && LowerChar(r[i]) == LowerChar(s[i])
  {
    seq(|s|, i requires 0 <= i < |s| => UpperChar(s[i]))
  }

  lemma LowerIdempotent(s: string)
    ensures Lower(Lower(s)) == Lower(s)
  {
  }

  lemma UpperIdempotent(s: string)
    ensures Upper(Upper(s)) == Upper(s)
  {
  }

  lemma LowerAppend(a: string, b: string)
    ensures Lower(a + b) == Lower(a) + Lower(b)
  {
  }

  /** Lower-casing each string of a sequence. */
  function LowerAll(ws: seq<string>): (r: seq<string>)
    ensures |r| == |ws|
    ensures forall i :: 0 <= i < |ws| ==> r[i] == Lower(ws[i])
  {
    seq(|ws|, i requires 0 <= i < |ws| => Lower(ws[i]))
  }

  // ---------------------------------------------------------------------------
  // Sequence facts, kept in small lemmas so that each proof sees only what it needs

  lemma HeadTail<T>(xs: seq<T>, x: T, rest: seq<T>)
    requires xs == [x] + rest
    ensures xs[0] == x && xs[1..] == rest
  {
  }

  lemma ConsOfHeadTail<T>(xs: seq<T>)
    requires xs != []
    ensures xs == [xs[0]] + xs[1..]
  {
  }

  lemma ThreeParts<T>(s: seq<T>, n: nat, m: nat)
    requires n <= m <= |s|
    ensures s[..n] + s[n..m] + s[m..] == s
  {
  }

  lemma CutThree<T>(a: seq<T>, b: seq<T>, c: seq<T>)
    ensures (a + b + c)[..|a|] == a
    ensures (a + b + c)[|a|..] == b + c
    ensures (a + b + c)[|a|..|a| + |b|] == b
    ensures (a + b + c)[|a| + |b|..] == c
  {
  }

  // ---------------------------------------------------------------------------
  // Words and separator runs

  predicate NoSeparator(w: string, k: Separators) {
    forall i :: 0 <= i < |w| ==> !IsSeparator(w[i], k)
  }

  predicate AllSeparators(g: string, k: Separators) {
    forall i :: 0 <= i < |g| ==> IsSeparator(g[i], k)
  }

  /** The length of the longest prefix of `s` free of separators. */
  function WordLength(s: string, k: Separators): (n: nat)
    ensures n <= |s|
  {
    if s == [] || IsSeparator(s[0], k) then 0 else 1 + WordLength(s[1..], k)
  }

  /** The prefix `WordLength` measures has no separator, and the character after it,
      if any, is one. */
  lemma {:induction false} WordLengthMaximal(s: string, k: Separators)
    ensures NoSeparator(s[..WordLength(s, k)], k)
    ensures WordLength(s, k) < |s| ==> IsSeparator(s[WordLength(s, k)], k)
    decreases |s|
  {
    if s != [] && !IsSeparator(s[0], k) {
      WordLengthMaximal(s[1..], k);
      var n := WordLength(s, k);
      forall i | 0 <= i < n ensures !IsSeparator(s[..n][i], k) {
        if i > 0 { assert s[..n][i] == s[1..][..n - 1][i - 1]; }
      }
      if n < |s| { assert s[n] == s[1..][n - 1]; }
    }
  }

  /** The length of the longest prefix of `s` made of separators (the greedy `+`). */
  function RunLength(s: string, k: Separators): (n: nat)
    ensures n <= |s|
  {
    if s == [] || !IsSeparator(s[0], k) then 0 else 1 + RunLength(s[1..], k)
  }

  /** The prefix `RunLength` measures is all separators, and the character after it, if
      any, is not one: the run is maximal, as the greedy `+` makes it. */
  lemma {:induction false} RunLengthMaximal(s: string, k: Separators)
    ensures AllSeparators(s[..RunLength(s, k)], k)
    ensures RunLength(s, k) < |s| ==> !IsSeparator(s[RunLength(s, k)], k)
    decreases |s|
  {
    if s != [] && IsSeparator(s[0], k) {
      RunLengthMaximal(s[1..], k);
      var n := RunLength(s, k);
      forall i | 0 <= i < n ensures IsSeparator(s[..n][i], k) {
        if i > 0 { assert s[..n][i] == s[1..][..n - 1][i - 1]; }
      }
      if n < |s| { assert s[n] == s[1..][n - 1]; }
    }
  }

  /** `s.split(/[class]+/)`: the pieces between maximal separator runs, in order. A
      leading or trailing run yields an empty first or last piece, and `""` yields `[""]`. */
  function Split(s: string, k: Separators): (r: seq<string>)
    ensures |r| >= 1
    decreases |s|
  {
    var n := WordLength(s, k);
    if n == |s| then [s]
    else
      var m := n + RunLength(s[n..], k);
      [s[..n]] + Split(s[m..], k)
  }

  /** The separator runs `Split` cuts out, in order; each takes at least one character. */
  function Gaps(s: string, k: Separators): (r: seq<string>)
    ensures |r| <= |s|
    decreases |s|
  {
    var n := WordLength(s, k);
    if n == |s| then []
    else
      var m := n + RunLength(s[n..], k);
      [s[n..m]] + Gaps(s[m..], k)
  }

  /** `ws[0] + gs[0] + ws[1] + ... + gs[|gs| - 1] + ws[|gs|]`. */
  function Weave(ws: seq<string>, gs: seq<string>): string
    requires |ws| == |gs| + 1
    decreases |gs|
  {
    if gs == [] then ws[0] else ws[0] + gs[0] + Weave(ws[1..], gs[1..])
  }

  /** `ws.join(sep)`; the empty sequence joins to `""`. */
  function Join(ws: seq<string>, sep: string): string
    decreases |ws|
  {
    if ws == [] then []
    else if |ws| == 1 then ws[0]
    else ws[0] + sep + Join(ws[1..], sep)
  }

  /** `s` with every separator removed. */
  function Strip(s: string, k: Separators): (r: string)
    ensures NoSeparator(r, k)
    ensures |r| <= |s|
  {
    if s == [] then []
    else if IsSeparator(s[0], k) then Strip(s[1..], k)
    else [s[0]] + Strip(s[1..], k)
  }

  lemma WeaveUnfold(ws: seq<string>, gs: seq<string>)
    requires |ws| == |gs| + 1 && gs != []
    ensures Weave(ws, gs) == ws[0] + gs[0] + Weave(ws[1..], gs[1..])
  {
  }

  lemma JoinUnfold(ws: seq<string>, sep: string)
    requires |ws| > 1
    ensures Join(ws, sep) == ws[0] + sep + Join(ws[1..], sep)
  {
  }

  /** Joining with `""` puts the first piece before the join of the rest, also when
      there is no rest. */
  lemma JoinCons(ws: seq<string>)
    requires ws != []
    ensures Join(ws, []) == ws[0] + Join(ws[1..], [])
  {
    if |ws| == 1 {
      assert ws[1..] == [];
    } else {
      JoinUnfold(ws, []);
    }
  }

  // ---------------------------------------------------------------------------
  // One step of a split

  /** Where the first piece ends and where the run after it ends, on a string that
      holds a separator. */
  lemma FirstCut(s: string, k: Separators) returns (n: nat, m: nat)
    requires WordLength(s, k) < |s|
    ensures n == WordLength(s, k) && m == n + RunLength(s[n..], k) && n < m <= |s|
    ensures NoSeparator(s[..n], k)
    ensures AllSeparators(s[n..m], k)
    ensures m < |s| ==> !IsSeparator(s[m], k)
  {
    n := WordLength(s, k);
    WordLengthMaximal(s, k);
    var t := s[n..];
    var r := RunLength(t, k);
    RunLengthMaximal(t, k);
    m := n + r;
    assert t[0] == s[n];
    assert s[n..m] == t[..r];
    if m < |s| {
      assert s[m] == t[r];
    }
  }

  /** A string without separators is one piece and has no runs. */
  lemma WholeWord(s: string, k: Separators)
    requires WordLength(s, k) == |s|
    ensures Split(s, k) == [s] && Gaps(s, k) == []
    ensures NoSeparator(s, k)
  {
    WordLengthMaximal(s, k);
    assert s[..|s|] == s;
  }

  lemma SplitUnfold(s: string, k: Separators, n: nat, m: nat)
    requires n == WordLength(s, k) < |s| && m == n + RunLength(s[n..], k) && n < m <= |s|
    ensures Split(s, k) == [s[..n]] + Split(s[m..], k)
  {
  }

  lemma GapsUnfold(s: string, k: Separators, n: nat, m: nat)
    requires n == WordLength(s, k) < |s| && m == n + RunLength(s[n..], k) && n < m <= |s|
    ensures Gaps(s, k) == [s[n..m]] + Gaps(s[m..], k)
  {
  }

  /** One step of `Split` and `Gaps` on a string that holds a separator: the first
      piece, then the maximal run after it, then the rest. */
  lemma SplitStep(s: string, k: Separators) returns (n: nat, m: nat)
    requires WordLength(s, k) < |s|
    ensures n == WordLength(s, k) && n < m <= |s|
    ensures Split(s, k) == [s[..n]] + Split(s[m..], k)
    ensures Gaps(s, k) == [s[n..m]] + Gaps(s[m..], k)
  {
    n, m := FirstCut(s, k);
    SplitUnfold(s, k, n, m);
    GapsUnfold(s, k, n, m);
  }

  // ---------------------------------------------------------------------------
  // What a split is

  /** The shape `Split` and `Gaps` give a string: pieces free of separators, of which
      only the first and the last may be empty, alternating with non-empty runs of
      separators. */
  predicate WellSplit(ws: seq<string>, gs: seq<string>, k: Separators) {
    && |ws| == |gs| + 1
    && (forall i :: 0 <= i < |ws| ==> NoSeparator(ws[i], k))
    && (forall i :: 0 < i < |ws| - 1 ==> ws[i] != [])
    && (forall i :: 0 <= i < |gs| ==> gs[i] != [] && AllSeparators(gs[i], k))
  }

  lemma WellSplitCons(w: string, g: string, ws: seq<string>, gs: seq<string>, k: Separators)
    requires WellSplit(ws, gs, k)
    requires NoSeparator(w, k) && g != [] && AllSeparators(g, k)
    requires |ws| > 1 ==> ws[0] != []
    ensures WellSplit([w] + ws, [g] + gs, k)
  {
    var ws', gs' := [w] + ws, [g] + gs;
    forall i | 0 <= i < |ws'| ensures NoSeparator(ws'[i], k) {
      if i > 0 { assert ws'[i] == ws[i - 1]; }
    }
    forall i | 0 < i < |ws'| - 1 ensures ws'[i] != [] {
      assert ws'[i] == ws[i - 1];
    }
    forall i | 0 <= i < |gs'| ensures gs'[i] != [] && AllSeparators(gs'[i], k) {
      if i > 0 { assert gs'[i] == gs[i - 1]; }
    }
  }

  lemma WellSplitTail(ws: seq<string>, gs: seq<string>, k: Separators)
    requires WellSplit(ws, gs, k) && gs != []
    ensures WellSplit(ws[1..], gs[1..], k)
    ensures NoSeparator(ws[0], k) && gs[0] != [] && AllSeparators(gs[0], k)
    ensures |gs| > 1 ==> ws[1] != []
  {
    var ws', gs' := ws[1..], gs[1..];
    forall i | 0 <= i < |ws'| ensures NoSeparator(ws'[i], k) {
      assert ws'[i] == ws[i + 1];
    }
    forall i | 0 < i < |ws'| - 1 ensures ws'[i] != [] {
      assert ws'[i] == ws[i + 1];
    }
    forall i | 0 <= i < |gs'| ensures gs'[i] != [] && AllSeparators(gs'[i], k) {
      assert gs'[i] == gs[i + 1];
    }
  }

  /** A weave of that shape whose first piece is not empty (or that is a single piece)
      does not start with a separator. */
  lemma WeaveHead(ws: seq<string>, gs: seq<string>, k: Separators)
    requires WellSplit(ws, gs, k)
    requires gs == [] || ws[0] != []
    ensures Weave(ws, gs) == [] || !IsSeparator(Weave(ws, gs)[0], k)
  {
    if gs != [] {
      WeaveUnfold(ws, gs);
      assert Weave(ws, gs)[0] == ws[0][0];
    }
  }

  lemma {:induction false} SplitCount(s: string, k: Separators)
    ensures |Split(s, k)| == |Gaps(s, k)| + 1
    decreases |s|
  {
    if WordLength(s, k) < |s| {
      var n, m := SplitStep(s, k);
      SplitCount(s[m..], k);
    } else {
      WholeWord(s, k);
    }
  }

  /** Splitting loses nothing: the pieces woven with the runs between them give the
      string back. */
  lemma {:induction false} SplitWeave(s: string, k: Separators)
    ensures |Split(s, k)| == |Gaps(s, k)| + 1
    ensures Weave(Split(s, k), Gaps(s, k)) == s
    decreases |s|
  {
    SplitCount(s, k);
    if WordLength(s, k) < |s| {
      var n, m := SplitStep(s, k);
      var t := s[m..];
      SplitWeave(t, k);
      var ws, gs := Split(s, k), Gaps(s, k);
      HeadTail(ws, s[..n], Split(t, k));
      HeadTail(gs, s[n..m], Gaps(t, k));
      WeaveUnfold(ws, gs);
      ThreeParts(s, n, m);
    } else {
      WholeWord(s, k);
    }
  }

  /** The pieces and runs of a split have the shape `WellSplit` describes, and the first
      piece is not empty when the string starts with a non-separator. */
  lemma {:induction false} SplitShape(s: string, k: Separators)
    ensures WellSplit(Split(s, k), Gaps(s, k), k)
    ensures s != [] && !IsSeparator(s[0], k) ==> Split(s, k)[0] != []
    decreases |s|
  {
    SplitCount(s, k);
    if WordLength(s, k) < |s| {
      var n, m := FirstCut(s, k);
      SplitUnfold(s, k, n, m);
      GapsUnfold(s, k, n, m);
      var t := s[m..];
      SplitShape(t, k);
      if |Split(t, k)| > 1 {
        if WordLength(t, k) == |t| {
          WholeWord(t, k);
        }
        assert t[0] == s[m];
      }
      WellSplitCons(s[..n], s[n..m], Split(t, k), Gaps(t, k), k);
      if s != [] && !IsSeparator(s[0], k) {
        assert s[..n] != [];
      }
    } else {
      WholeWord(s, k);
    }
  }

  /** A piece free of separators followed by something that starts with a separator
      is the word `Split` and `Collapse` find first. */
  lemma {:induction false} WordLengthOfPrefix(w: string, t: string, k: Separators)
    requires NoSeparator(w, k)
    requires t == [] || IsSeparator(t[0], k)
    ensures WordLength(w + t, k) == |w|
    decreases |w|
  {
    if w == [] {
      assert w + t == t;
    } else {
      assert (w + t)[0] == w[0] && (w + t)[1..] == w[1..] + t;
      assert NoSeparator(w[1..], k) by {
        forall i | 0 <= i < |w| - 1 ensures !IsSeparator(w[1..][i], k) {
          assert w[1..][i] == w[i + 1];
        }
      }
      WordLengthOfPrefix(w[1..], t, k);
    }
  }

  /** A run of separators followed by something that does not start with one is the
      run `Split` and `Collapse` consume. */
  lemma {:induction false} RunLengthOfPrefix(g: string, t: string, k: Separators)
    requires AllSeparators(g, k)
    requires t == [] || !IsSeparator(t[0], k)
    ensures RunLength(g + t, k) == |g|
    decreases |g|
  {
    if g == [] {
      assert g + t == t;
    } else {
      assert (g + t)[0] == g[0] && (g + t)[1..] == g[1..] + t;
      assert AllSeparators(g[1..], k) by {
        forall i | 0 <= i < |g| - 1 ensures IsSeparator(g[1..][i], k) {
          assert g[1..][i] == g[i + 1];
        }
      }
      RunLengthOfPrefix(g[1..], t, k);
    }
  }

  /** The first step of splitting a weave of that shape cuts exactly its first piece
      and its first run. */
  lemma WeaveCut(ws: seq<string>, gs: seq<string>, k: Separators) returns (n: nat, m: nat)
    requires WellSplit(ws, gs, k) && gs != []
    ensures WordLength(Weave(ws, gs), k) < |Weave(ws, gs)|
    ensures n == |ws[0]| && m == n + |gs[0]|
    ensures Split(Weave(ws, gs), k) == [ws[0]] + Split(Weave(ws[1..], gs[1..]), k)
    ensures Gaps(Weave(ws, gs), k) == [gs[0]] + Gaps(Weave(ws[1..], gs[1..]), k)
  {
    var s := Weave(ws, gs);
    WellSplitTail(ws, gs, k);
    var rest := Weave(ws[1..], gs[1..]);
    WeaveHead(ws[1..], gs[1..], k);
    WeaveUnfold(ws, gs);
    CutThree(ws[0], gs[0], rest);
    n, m := |ws[0]|, |ws[0]| + |gs[0]|;
    assert s == ws[0] + (gs[0] + rest);
    assert (gs[0] + rest)[0] == gs[0][0];
    WordLengthOfPrefix(ws[0], gs[0] + rest, k);
    RunLengthOfPrefix(gs[0], rest, k);
    SplitUnfold(s, k, n, m);
    GapsUnfold(s, k, n, m);
  }

  /** The converse of `SplitWeave`: a string with the shape of a split splits back into
      exactly those pieces and runs. */
  lemma {:induction false} SplitOfWeave(ws: seq<string>, gs: seq<string>, k: Separators)
    requires WellSplit(ws, gs, k)
    ensures Split(Weave(ws, gs), k) == ws
    ensures Gaps(Weave(ws, gs), k) == gs
    decreases |gs|
  {
    if gs == [] {
      assert Weave(ws, gs) == ws[0] == ws[0] + [];
      WordLengthOfPrefix(ws[0], [], k);
      WholeWord(ws[0], k);
      ConsOfHeadTail(ws);
    } else {
      var n, m := WeaveCut(ws, gs, k);
      WellSplitTail(ws, gs, k);
      SplitOfWeave(ws[1..], gs[1..], k);
      ConsOfHeadTail(ws);
      ConsOfHeadTail(gs);
    }
  }

  // ---------------------------------------------------------------------------
  // Removing separators

  lemma {:induction false} StripAppend(a: string, b: string, k: Separators)
    ensures Strip(a + b, k) == Strip(a, k) + Strip(b, k)
    decreases |a|
  {
    if a != [] {
      assert (a + b)[0] == a[0] && (a + b)[1..] == a[1..] + b;
      StripAppend(a[1..], b, k);
    } else {
      assert a + b == b;
    }
  }

  lemma {:induction false} StripWord(w: string, k: Separators)
    requires NoSeparator(w, k)
    ensures Strip(w, k) == w
    decreases |w|
  {
    if w != [] {
      StripWord(w[1..], k);
    }
  }

  lemma {:induction false} StripRun(g: string, k: Separators)
    requires AllSeparators(g, k)
    ensures Strip(g, k) == []
    decreases |g|
  {
    if g != [] {
      StripRun(g[1..], k);
    }
  }

  lemma {:induction false} StripWeave(ws: seq<string>, gs: seq<string>, k: Separators)
    requires WellSplit(ws, gs, k)
    ensures Strip(Weave(ws, gs), k) == Join(ws, [])
    decreases |gs|
  {
    StripWord(ws[0], k);
    if gs != [] {
      WellSplitTail(ws, gs, k);
      StripWeave(ws[1..], gs[1..], k);
      StripRun(gs[0], k);
      WeaveUnfold(ws, gs);
      JoinUnfold(ws, []);
      StripAppend(ws[0] + gs[0], Weave(ws[1..], gs[1..]), k);
      StripAppend(ws[0], gs[0], k);
    }
  }

  /** Concatenating the pieces of a split gives the string without its separators. */
  lemma SplitConcat(s: string, k: Separators)
    ensures Join(Split(s, k), []) == Strip(s, k)
  {
    SplitWeave(s, k);
    SplitShape(s, k);
    StripWeave(Split(s, k), Gaps(s, k), k);
  }

  // ---------------------------------------------------------------------------
  // Joining

  /** Joining pieces free of separators with a separator-free glue adds no separator. */
  lemma {:induction false} JoinNoSeparator(ws: seq<string>, sep: string, k: Separators)
    requires forall i :: 0 <= i < |ws| ==> NoSeparator(ws[i], k)
    requires NoSeparator(sep, k)
    ensures NoSeparator(Join(ws, sep), k)
    decreases |ws|
  {
    if |ws| > 1 {
      JoinNoSeparator(ws[1..], sep, k);
      JoinUnfold(ws, sep);
      AppendNoSeparator(ws[0], sep, k);
      AppendNoSeparator(ws[0] + sep, Join(ws[1..], sep), k);
    }
  }

  lemma AppendNoSeparator(a: string, b: string, k: Separators)
    requires NoSeparator(a, k) && NoSeparator(b, k)
    ensures NoSeparator(a + b, k)
  {
    forall i | 0 <= i < |a + b| ensures !IsSeparator((a + b)[i], k) {
      if i >= |a| { assert (a + b)[i] == b[i - |a|]; }
    }
  }

  /** Lower-casing a joined string lower-cases each piece, when the glue has no
      upper-case letter. */
  lemma {:induction false} LowerJoin(ws: seq<string>, sep: string)
    requires Lower(sep) == sep
    ensures Lower(Join(ws, sep)) == Join(LowerAll(ws), sep)
    decreases |ws|
  {
    if |ws| > 1 {
      LowerJoin(ws[1..], sep);
      assert LowerAll(ws)[1..] == LowerAll(ws[1..]);
      JoinUnfold(ws, sep);
      JoinUnfold(LowerAll(ws), sep);
      LowerAppend(ws[0] + sep, Join(ws[1..], sep));
      LowerAppend(ws[0], sep);
    }
  }

  lemma {:induction false} LowerWeave(ws: seq<string>, gs: seq<string>)
    requires |ws| == |gs| + 1
    ensures Lower(Weave(ws, gs)) == Weave(LowerAll(ws), LowerAll(gs))
    decreases |gs|
  {
    if gs != [] {
      LowerWeave(ws[1..], gs[1..]);
      assert LowerAll(ws)[1..] == LowerAll(ws[1..]);
      assert LowerAll(gs)[1..] == LowerAll(gs[1..]);
      WeaveUnfold(ws, gs);
      WeaveUnfold(LowerAll(ws), LowerAll(gs));
      LowerAppend(ws[0] + gs[0], Weave(ws[1..], gs[1..]));
      LowerAppend(ws[0], gs[0]);
    }
  }

  /** Lower-casing keeps the shape of a split, because case mapping keeps separators. */
  lemma WellSplitLower(ws: seq<string>, gs: seq<string>, k: Separators)
    requires WellSplit(ws, gs, k)
    ensures WellSplit(LowerAll(ws), LowerAll(gs), k)
  {
    var lws, lgs := LowerAll(ws), LowerAll(gs);
    forall i | 0 <= i < |lws| ensures NoSeparator(lws[i], k) {
      forall j | 0 <= j < |lws[i]| ensures !IsSeparator(lws[i][j], k) {
        CaseKeepsSeparators(ws[i][j], k);
      }
    }
    forall i | 0 <= i < |lgs| ensures lgs[i] != [] && AllSeparators(lgs[i], k) {
      forall j | 0 <= j < |lgs[i]| ensures IsSeparator(lgs[i][j], k) {
        CaseKeepsSeparators(gs[i][j], k);
      }
    }
  }

  /** Lower-casing commutes with splitting. */
  lemma SplitLower(s: string, k: Separators)
    ensures Split(Lower(s), k) == LowerAll(Split(s, k))
  {
    var ws, gs := Split(s, k), Gaps(s, k);
    SplitWeave(s, k);
    SplitShape(s, k);
    LowerWeave(ws, gs);
    WellSplitLower(ws, gs, k);
    SplitOfWeave(LowerAll(ws), LowerAll(gs), k);
  }

  // ---------------------------------------------------------------------------
  // Replacing separator runs

  /** `s.replace(/[class]+/g, rep)`: scanning left to right, each maximal run of
      separators becomes the one character `rep`; everything else is copied. */
  function Collapse(s: string, k: Separators, rep: char): (r: string)
    ensures |r| <= |s|
    decreases |s|
  {
    if s == [] then []
    else if IsSeparator(s[0], k) then [rep] + Collapse(s[RunLength(s, k)..], k, rep)
    else [s[0]] + Collapse(s[1..], k, rep)
  }

  lemma {:induction false} CollapseWord(w: string, t: string, k: Separators, rep: char)
    requires NoSeparator(w, k)
    ensures Collapse(w + t, k, rep) == w + Collapse(t, k, rep)
    decreases |w|
  {
    if w != [] {
      assert (w + t)[0] == w[0] && (w + t)[1..] == w[1..] + t;
      CollapseWord(w[1..], t, k, rep);
    } else {
      assert w + t == t;
    }
  }

  lemma CollapseRun(g: string, t: string, k: Separators, rep: char)
    requires g != [] && AllSeparators(g, k)
    requires t == [] || !IsSeparator(t[0], k)
    ensures Collapse(g + t, k, rep) == [rep] + Collapse(t, k, rep)
  {
    RunLengthOfPrefix(g, t, k);
    assert (g + t)[0] == g[0] && (g + t)[|g|..] == t;
  }

  lemma {:induction false} CollapseWeave(ws: seq<string>, gs: seq<string>, k: Separators, rep: char)
    requires WellSplit(ws, gs, k)
    ensures Collapse(Weave(ws, gs), k, rep) == Join(ws, [rep])
    decreases |gs|
  {
    if gs == [] {
      assert Weave(ws, gs) == ws[0] + [];
      CollapseWord(ws[0], [], k, rep);
    } else {
      WellSplitTail(ws, gs, k);
      var rest := Weave(ws[1..], gs[1..]);
      WeaveHead(ws[1..], gs[1..], k);
      WeaveUnfold(ws, gs);
      assert Weave(ws, gs) == ws[0] + (gs[0] + rest);
      CollapseWord(ws[0], gs[0] + rest, k, rep);
      CollapseRun(gs[0], rest, k, rep);
      CollapseWeave(ws[1..], gs[1..], k, rep);
      JoinUnfold(ws, [rep]);
    }
  }

  /** Replacing every separator run by `rep` is joining the split pieces with `rep`. */
  lemma CollapseIsJoin(s: string, k: Separators, rep: char)
    ensures Collapse(s, k, rep) == Join(Split(s, k), [rep])
  {
    SplitWeave(s, k);
    SplitShape(s, k);
    CollapseWeave(Split(s, k), Gaps(s, k), k, rep);
  }
}
