/** The string cell of src/hooks/use-string.tsx: `transform(type)` rewrites the current
    string by one of seven case conventions, and `reset` restores the initial string. */
module UseString {
  import opened Words

  /** `w.charAt(0).toUpperCase() + w.slice(1)`. `charAt(0)` of `""` is `""`, so the empty
      string stays empty. */
  function Capitalize(w: string): (r: string)
    ensures |r| == |w|
    ensures w != [] ==> !IsLower(r[0]) && LowerChar(r[0]) == LowerChar(w[0]) && r[1..] == w[1..]
  {
    if w == [] then [] else Upper(w[..1]) + w[1..]
  }

  /** `words.map((word) => capitalize(word))`. */
  function Capitalized(ws: seq<string>): (r: seq<string>)
    ensures |r| == |ws|
    ensures forall i :: 0 <= i < |ws| ==> r[i] == Capitalize(ws[i])
  {
    seq(|ws|, i requires 0 <= i < |ws| => Capitalize(ws[i]))
  }

  /** `words.map((word, index) => index === 0 ? word.toLowerCase() : capitalize(word))`. */
  function CamelWords(ws: seq<string>): (r: seq<string>)
    ensures |r| == |ws|
    ensures ws != [] ==> r[0] == Lower(ws[0]) && r[1..] == Capitalized(ws[1..])
  {
    seq(|ws|, i requires 0 <= i < |ws| => if i == 0 then Lower(ws[i]) else Capitalize(ws[i]))
  }

  /** `prev.split(/[-_\s]+/).map(capitalize).join('')` */
  function PascalCase(s: string): string {
    Join(Capitalized(Split(s, WordBreaks)), [])
  }

  /** `prev.split(/[-_\s]+/).map(first lower-cased, the others capitalized).join('')` */
  function CamelCase(s: string): string {
    Join(CamelWords(Split(s, WordBreaks)), [])
  }

  /** `prev.toLowerCase().replace(/[\s_]+/g, '-')` */
  function KebabCase(s: string): string {
    Collapse(Lower(s), KebabRuns, '-')
  }

  /** `prev.toLowerCase().replace(/[\s-]+/g, '_')` */
  function SnakeCase(s: string): string {
    Collapse(Lower(s), SnakeRuns, '_')
  }

  /** The seven kinds `StringTransformType` names. */
  const TransformKinds: set<string> :=
    {"lowercase", "uppercase", "capitalize", "pascal-case", "camel-case", "kebab-case", "snake-case"}

  /** The `switch (type)` of `transform`: a kind outside the seven matches no case and
      leaves the string as it was. */
  function Transformed(s: string, kind: string): (r: string)
    ensures kind !in TransformKinds ==> r == s
  {
    match kind
    case "lowercase" => Lower(s)
    case "uppercase" => Upper(s)
    case "capitalize" => Capitalize(s)
    case "pascal-case" => PascalCase(s)
    case "camel-case" => CamelCase(s)
    case "kebab-case" => KebabCase(s)
    case "snake-case" => SnakeCase(s)
    case _ => s
  }

  // ---------------------------------------------------------------------------
  // Lower- and upper-case

  /** Lower-casing leaves no upper-case letter, keeps the length, and is idempotent. */
  lemma LowerCaseShape(s: string)
    ensures |Lower(s)| == |s|
    ensures forall i :: 0 <= i < |s| ==> !IsUpper(Lower(s)[i])
    ensures Lower(Lower(s)) == Lower(s)
  {
    LowerIdempotent(s);
  }

  /** Upper-casing leaves no lower-case letter, keeps the length, and is idempotent. */
  lemma UpperCaseShape(s: string)
    ensures |Upper(s)| == |s|
    ensures forall i :: 0 <= i < |s| ==> !IsLower(Upper(s)[i])
    ensures Upper(Upper(s)) == Upper(s)
  {
    UpperIdempotent(s);
  }

  /** A string equal to its own lower-casing has no upper-case letter. */
  lemma LowerFixedNoUpper(s: string)
    requires Lower(s) == s
    ensures forall i :: 0 <= i < |s| ==> !IsUpper(s[i])
  {
    forall i | 0 <= i < |s| ensures !IsUpper(s[i]) {
      assert s[i] == Lower(s)[i];
    }
  }

  // ---------------------------------------------------------------------------
  // Capitalize

  lemma CapitalizeKeepsSeparators(w: string, k: Separators)
    requires NoSeparator(w, k)
    ensures NoSeparator(Capitalize(w), k)
  {
    if w != [] {
      CaseKeepsSeparators(w[0], k);
      var r := Capitalize(w);
      forall i | 0 <= i < |r| ensures !IsSeparator(r[i], k) {
        if i > 0 {
          assert r[i] == r[1..][i - 1] == w[1..][i - 1] == w[i];
        }
      }
    }
  }

  /** Capitalizing changes only the case of the first character. */
  lemma LowerCapitalize(w: string)
    ensures Lower(Capitalize(w)) == Lower(w)
  {
    var r := Capitalize(w);
    forall i | 0 <= i < |w| ensures Lower(r)[i] == Lower(w)[i] {
      if i > 0 {
        assert r[i] == r[1..][i - 1] == w[1..][i - 1] == w[i];
      }
    }
  }

  lemma LowerAllCapitalized(ws: seq<string>)
    ensures LowerAll(Capitalized(ws)) == LowerAll(ws)
  {
    forall i | 0 <= i < |ws| ensures LowerAll(Capitalized(ws))[i] == LowerAll(ws)[i] {
      LowerCapitalize(ws[i]);
    }
  }

  lemma CapitalizedNoSeparator(ws: seq<string>, k: Separators)
    requires forall i :: 0 <= i < |ws| ==> NoSeparator(ws[i], k)
    ensures forall i :: 0 <= i < |ws| ==> NoSeparator(Capitalized(ws)[i], k)
  {
    forall i | 0 <= i < |ws| ensures NoSeparator(Capitalized(ws)[i], k) {
      CapitalizeKeepsSeparators(ws[i], k);
    }
  }

  // ---------------------------------------------------------------------------
  // Pascal case and camel case

  /** Pascal case is the concatenation of the words between separator runs, each with
      its first character upper-cased: for any string made of such words and runs. */
  lemma PascalOfWords(ws: seq<string>, gs: seq<string>)
    requires WellSplit(ws, gs, WordBreaks)
    ensures PascalCase(Weave(ws, gs)) == Join(Capitalized(ws), [])
  {
    SplitOfWeave(ws, gs, WordBreaks);
  }

  /** Pascal case has no `-`, `_` or whitespace, and differs from the string with its
      separators removed only in the case of letters. */
  lemma PascalShape(s: string)
    ensures NoSeparator(PascalCase(s), WordBreaks)
    ensures Lower(PascalCase(s)) == Lower(Strip(s, WordBreaks))
  {
    var ws := Split(s, WordBreaks);
    SplitShape(s, WordBreaks);
    CapitalizedNoSeparator(ws, WordBreaks);
    JoinNoSeparator(Capitalized(ws), [], WordBreaks);
    LowerJoin(Capitalized(ws), []);
    LowerAllCapitalized(ws);
    LowerJoin(ws, []);
    SplitConcat(s, WordBreaks);
  }

  /** Camel case is the first word lower-cased followed by the other words each with
      its first character upper-cased: for any string made of such words and runs. */
  lemma CamelOfWords(ws: seq<string>, gs: seq<string>)
    requires WellSplit(ws, gs, WordBreaks)
    ensures CamelCase(Weave(ws, gs)) == Lower(ws[0]) + Join(Capitalized(ws[1..]), [])
  {
    SplitOfWeave(ws, gs, WordBreaks);
    JoinCons(CamelWords(ws));
  }

  lemma CamelWordsNoSeparator(ws: seq<string>, k: Separators)
    requires forall i :: 0 <= i < |ws| ==> NoSeparator(ws[i], k)
    ensures forall i :: 0 <= i < |ws| ==> NoSeparator(CamelWords(ws)[i], k)
  {
    var cws := CamelWords(ws);
    forall i | 0 <= i < |cws| ensures NoSeparator(cws[i], k) {
      if i == 0 {
        WellSplitLower([ws[0]], [], k);
        assert LowerAll([ws[0]])[0] == cws[0];
      } else {
        CapitalizeKeepsSeparators(ws[i], k);
        assert cws[i] == cws[1..][i - 1] == Capitalized(ws[1..])[i - 1];
      }
    }
  }

  /** The camel-case pieces lower-case to the lower-cased pieces. */
  lemma LowerAllCamelWords(ws: seq<string>)
    ensures LowerAll(CamelWords(ws)) == LowerAll(ws)
  {
    var cws := CamelWords(ws);
    forall i | 0 <= i < |ws| ensures LowerAll(cws)[i] == LowerAll(ws)[i] {
      if i == 0 {
        LowerIdempotent(ws[0]);
      } else {
        assert cws[i] == cws[1..][i - 1] == Capitalize(ws[i]);
        LowerCapitalize(ws[i]);
      }
    }
  }

  /** Camel case has no `-`, `_` or whitespace, starts with the first piece of the split
      lower-cased, continues with the other pieces capitalized, and differs from the
      string with its separators removed only in the case of letters. */
  lemma CamelShape(s: string)
    ensures NoSeparator(CamelCase(s), WordBreaks)
    ensures CamelCase(s) == Lower(Split(s, WordBreaks)[0]) + Join(Capitalized(Split(s, WordBreaks)[1..]), [])
    ensures Lower(CamelCase(s)) == Lower(Strip(s, WordBreaks))
  {
    var ws := Split(s, WordBreaks);
    var cws := CamelWords(ws);
    SplitShape(s, WordBreaks);
    CamelWordsNoSeparator(ws, WordBreaks);
    JoinNoSeparator(cws, [], WordBreaks);
    JoinCons(cws);
    LowerAllCamelWords(ws);
    LowerJoin(cws, []);
    LowerJoin(ws, []);
    SplitConcat(s, WordBreaks);
  }

  /** A leading separator makes `split` yield an empty first piece, and lower-casing
      and capitalizing agree on it: camel case then equals Pascal case. */
  lemma CamelAfterLeadingSeparator(s: string)
    requires s != [] && IsSeparator(s[0], WordBreaks)
    ensures Split(s, WordBreaks)[0] == []
    ensures CamelCase(s) == PascalCase(s)
  {
    var n, m := SplitStep(s, WordBreaks);
    var ws := Split(s, WordBreaks);
    assert ws[0] == [];
    assert CamelWords(ws) == Capitalized(ws) by {
      forall i | 0 <= i < |ws| ensures CamelWords(ws)[i] == Capitalized(ws)[i] {
        if i == 0 {
          assert Lower(ws[0]) == [] == Capitalize(ws[0]);
        }
      }
    }
  }

  // ---------------------------------------------------------------------------
  // Kebab case and snake case

  /** Lower-case the string, then replace each maximal run of the class by `rep`: the
      result is the lower-cased pieces of the split joined with `rep`. */
  lemma CollapseLowerIsJoin(s: string, k: Separators, rep: char)
    ensures Collapse(Lower(s), k, rep) == Join(LowerAll(Split(s, k)), [rep])
  {
    CollapseIsJoin(Lower(s), k, rep);
    SplitLower(s, k);
  }

  /** The result of such a replacement has no upper-case letter and no separator of the
      class, when `rep` is a lower-case-stable non-separator. */
  lemma CollapseLowerShape(s: string, k: Separators, rep: char)
    requires !IsSeparator(rep, k) && !IsUpper(rep)
    ensures NoSeparator(Collapse(Lower(s), k, rep), k)
    ensures forall i :: 0 <= i < |Collapse(Lower(s), k, rep)| ==> !IsUpper(Collapse(Lower(s), k, rep)[i])
  {
    var ws := Split(Lower(s), k);
    CollapseIsJoin(Lower(s), k, rep);
    SplitShape(Lower(s), k);
    JoinNoSeparator(ws, [rep], k);
    SplitLower(s, k);
    assert Lower([rep]) == [rep];
    LowerJoin(ws, [rep]);
    assert LowerAll(ws) == ws by {
      forall i | 0 <= i < |ws| ensures LowerAll(ws)[i] == ws[i] {
        LowerIdempotent(Split(s, k)[i]);
      }
    }
    LowerFixedNoUpper(Collapse(Lower(s), k, rep));
  }

  /** Kebab case is lower-case, has no whitespace and no `_`, and is the lower-cased
      pieces between maximal runs of whitespace and `_`, joined by single `-`. */
  lemma KebabShape(s: string)
    ensures forall i :: 0 <= i < |KebabCase(s)| ==> !IsUpper(KebabCase(s)[i])
    ensures forall i :: 0 <= i < |KebabCase(s)| ==> !IsWhiteSpace(KebabCase(s)[i]) && KebabCase(s)[i] != '_'
    ensures KebabCase(s) == Join(LowerAll(Split(s, KebabRuns)), "-")
  {
    CollapseLowerShape(s, KebabRuns, '-');
    CollapseLowerIsJoin(s, KebabRuns, '-');
  }

  /** Snake case is lower-case, has no whitespace and no `-`, and is the lower-cased
      pieces between maximal runs of whitespace and `-`, joined by single `_`. */
  lemma SnakeShape(s: string)
    ensures forall i :: 0 <= i < |SnakeCase(s)| ==> !IsUpper(SnakeCase(s)[i])
    ensures forall i :: 0 <= i < |SnakeCase(s)| ==> !IsWhiteSpace(SnakeCase(s)[i]) && SnakeCase(s)[i] != '-'
    ensures SnakeCase(s) == Join(LowerAll(Split(s, SnakeRuns)), "_")
  {
    CollapseLowerShape(s, SnakeRuns, '_');
    CollapseLowerIsJoin(s, SnakeRuns, '_');
  }

  // ---------------------------------------------------------------------------
  // Worked examples

  lemma WeaveTwo(a: string, b: string, g: string)
    ensures Weave([a, b], [g]) == a + g + b
  {
    WeaveUnfold([a, b], [g]);
    assert [a, b][1..] == [b] && [g][1..] == [];
  }

  lemma WeaveThree(a: string, b: string, c: string, g: string, h: string)
    ensures Weave([a, b, c], [g, h]) == a + g + b + h + c
  {
    WeaveUnfold([a, b, c], [g, h]);
    assert [a, b, c][1..] == [b, c] && [g, h][1..] == [h];
    WeaveTwo(b, c, h);
  }

  lemma JoinTwo(a: string, b: string, sep: string)
    ensures Join([a, b], sep) == a + sep + b
  {
    JoinUnfold([a, b], sep);
    assert [a, b][1..] == [b];
  }

  lemma JoinThree(a: string, b: string, c: string, sep: string)
    ensures Join([a, b, c], sep) == a + sep + b + sep + c
  {
    JoinUnfold([a, b, c], sep);
    assert [a, b, c][1..] == [b, c];
    JoinTwo(b, c, sep);
  }

  /** Kebab case of words separated by whitespace-or-underscore runs. */
  lemma KebabOfWords(ws: seq<string>, gs: seq<string>)
    requires WellSplit(ws, gs, KebabRuns)
    ensures KebabCase(Weave(ws, gs)) == Join(LowerAll(ws), "-")
  {
    SplitOfWeave(ws, gs, KebabRuns);
    KebabShape(Weave(ws, gs));
  }

  lemma ExampleWordsKebab()
    ensures WellSplit(["Hello", "World", "Test"], [" ", "_"], KebabRuns)
  {
    assert NoSeparator("Hello", KebabRuns);
    assert NoSeparator("World", KebabRuns);
    assert NoSeparator("Test", KebabRuns);
    assert AllSeparators(" ", KebabRuns) && AllSeparators("_", KebabRuns);
  }

  lemma ExampleWordsBreaks()
    ensures WellSplit(["Hello", "World", "Test"], [" ", "_"], WordBreaks)
  {
    assert NoSeparator("Hello", WordBreaks);
    assert NoSeparator("World", WordBreaks);
    assert NoSeparator("Test", WordBreaks);
    assert AllSeparators(" ", WordBreaks) && AllSeparators("_", WordBreaks);
  }

  lemma ExampleLowered()
    ensures LowerAll(["Hello", "World", "Test"]) == ["hello", "world", "test"]
  {
    assert Lower("Hello") == "hello";
    assert Lower("World") == "world";
    assert Lower("Test") == "test";
  }

  lemma KebabExample(s: string)
    requires s == "Hello World_Test"
    ensures KebabCase(s) == "hello-world-test"
  {
    var ws, gs := ["Hello", "World", "Test"], [" ", "_"];
    WeaveThree("Hello", "World", "Test", " ", "_");
    assert s == Weave(ws, gs);
    ExampleWordsKebab();
    KebabOfWords(ws, gs);
    ExampleLowered();
    JoinThree("hello", "world", "test", "-");
  }

  lemma CamelExample(s: string)
    requires s == "Hello World_Test"
    ensures CamelCase(s) == "helloWorldTest"
  {
    var ws, gs := ["Hello", "World", "Test"], [" ", "_"];
    WeaveThree("Hello", "World", "Test", " ", "_");
    assert s == Weave(ws, gs);
    ExampleWordsBreaks();
    CamelOfWords(ws, gs);
    assert ws[1..] == ["World", "Test"];
    ExampleCamelParts();
  }

  lemma ExampleCamelParts()
    ensures Lower("Hello") + Join(Capitalized(["World", "Test"]), []) == "helloWorldTest"
  {
    assert Lower("Hello") == "hello";
    assert Capitalize("World") == "World" && Capitalize("Test") == "Test";
    assert Capitalized(["World", "Test"]) == ["World", "Test"];
    JoinTwo("World", "Test", []);
  }

  lemma ExamplePascalParts()
    ensures Join(Capitalized(["hello", "world"]), []) == "HelloWorld"
  {
    assert Upper("h") == "H" && Upper("w") == "W";
    assert Capitalize("hello") == "Hello";
    assert Capitalize("world") == "World";
    assert Capitalized(["hello", "world"]) == ["Hello", "World"];
    JoinTwo("Hello", "World", []);
  }

  lemma PascalExample(s: string)
    requires s == "hello world"
    ensures PascalCase(s) == "HelloWorld"
  {
    var ws, gs := ["hello", "world"], [" "];
    WeaveTwo("hello", "world", " ");
    assert s == Weave(ws, gs);
    assert WellSplit(ws, gs, WordBreaks) by {
      assert NoSeparator("hello", WordBreaks) && NoSeparator("world", WordBreaks);
      assert AllSeparators(" ", WordBreaks);
    }
    PascalOfWords(ws, gs);
    ExamplePascalParts();
  }

  // ---------------------------------------------------------------------------
  // The cell

  class StringCell {
    var value: string
    const initial: string

    /** `useString(initialValue = '')` */
    constructor (initialValue: string := "")
      ensures value == initialValue && initial == initialValue
    {
      value := initialValue;
      initial := initialValue;
    }

    /** `setValue(next)` with a plain value. */
    method Set(next: string)
      modifies this
      ensures value == next
    {
      value := next;
    }

    /** A kind outside the seven leaves the value unchanged. */
    method Transform(kind: string)
      modifies this
      ensures value == Transformed(old(value), kind)
      ensures kind !in TransformKinds ==> value == old(value)
    {
      value := Transformed(value, kind);
    }

    method Reset()
      modifies this
      ensures value == initial
    {
      value := initial;
    }
  }

  lemma TransformedLower(s: string)
    ensures Transformed(s, "lowercase") == Lower(s)
  {
  }

  lemma TransformedUpper(s: string)
    ensures Transformed(s, "uppercase") == Upper(s)
  {
  }

  lemma TransformedCapitalize(s: string)
    ensures Transformed(s, "capitalize") == Capitalize(s)
  {
  }

  lemma TransformedPascal(s: string)
    ensures Transformed(s, "pascal-case") == PascalCase(s)
  {
  }

  lemma TransformedSnake(s: string)
    ensures Transformed(s, "snake-case") == SnakeCase(s)
  {
  }

  lemma TransformedKebab(s: string)
    ensures Transformed(s, "kebab-case") == KebabCase(s)
  {
  }

  lemma TransformedCamel(s: string)
    ensures Transformed(s, "camel-case") == CamelCase(s)
  {
  }

  /** A client run: a kind outside the seven changes nothing, kebab case joins the
      lower-cased pieces with `-`, camel case starts with the first piece lower-cased,
      and `reset` restores the initial string (`""` by default). */
  method StringCellScenario(start: string, other: string) returns (unknown: string, kebab: string, camel: string, restored: string)
    requires other !in TransformKinds
    ensures unknown == start
    ensures kebab == Join(LowerAll(Split(start, KebabRuns)), "-")
    ensures camel == Lower(Split(start, WordBreaks)[0]) + Join(Capitalized(Split(start, WordBreaks)[1..]), [])
    ensures restored == ""
  {
    var cell := new StringCell();
    cell.Set(start);
    cell.Transform(other);
    unknown := cell.value;
    cell.Transform("kebab-case");
    kebab := cell.value;
    cell.Set(start);
    cell.Transform("camel-case");
    camel := cell.value;
    TransformedKebab(start);
    KebabShape(start);
    TransformedCamel(start);
    CamelShape(start);
    cell.Reset();
    restored := cell.value;
  }
}
