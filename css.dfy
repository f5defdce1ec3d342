/** css: builds CSS text. rule turns property entries into declaration
    lines, selector and at wrap a body in braces, join puts blocks on
    separate lines. */
module Css {
  import opened Wrappers
  import opened Strings

  /** One entry of the style object, in Object.entries order. */
  datatype Declaration = Declaration(property: string, value: string)

  /** `${key.toKebabCase()}: ${value};` */
  function Line(d: Declaration): (line: string)
    ensures StartsWith(line, ToKebabCase(d.property) + ": ")
    ensures EndsWith(line, ";")
    ensures |line| == |ToKebabCase(d.property)| + |d.value| + 3
    ensures line[|ToKebabCase(d.property)| + 2..|line| - 1] == d.value
  {
    ToKebabCase(d.property) + ": " + d.value + ";"
  }

  function Lines(ds: seq<Declaration>): (lines: seq<string>)
    ensures |lines| == |ds|
    ensures forall i :: 0 <= i < |ds| ==> lines[i] == Line(ds[i])
  {
    seq(|ds|, i requires 0 <= i < |ds| => Line(ds[i]))
  }

  /** css.rule: the declaration lines joined with "\n". */
  function Rule(ds: seq<Declaration>): (r: string)
    ensures |ds| == 0 ==> r == ""
    ensures |ds| == 1 ==> r == Line(ds[0])
  {
    JoinWith(Lines(ds), "\n")
  }

  predicate NoNewline(s: string) { '\n' !in s }

  /** Kebab-casing only adds "-" and changes letter case, so it adds no
      line break. */
  lemma KebabAddsNoNewline(s: string)
    requires NoNewline(s)
    ensures NoNewline(ToKebabCase(s))
  {
    var h := HyphenateBoundaries(s);
    HyphenateKeepsCharacters(s);
    ToLowerAt(h);
    forall i | 0 <= i < |h|
      ensures ToLower(h)[i] != '\n'
    {
      assert h[i] in s || h[i] == '-';
    }
  }

  lemma {:induction false} HyphenateKeepsCharacters(s: string)
    ensures forall c :: c in HyphenateBoundaries(s) ==> c in s || c == '-'
    decreases |s|
  {
    if |s| == 0 {
    } else if BoundaryAt(s, 0) {
      HyphenateKeepsCharacters(s[2..]);
      assert forall c :: c in s[2..] ==> c in s;
    } else {
      HyphenateKeepsCharacters(s[1..]);
      assert forall c :: c in s[1..] ==> c in s;
    }
  }

  /** When no property or value holds a line break, the rule has exactly
      one line per entry, in order, each the entry's declaration. */
  lemma RuleLines(ds: seq<Declaration>)
    requires |ds| > 0
    requires forall i :: 0 <= i < |ds| ==> NoNewline(ds[i].property) && NoNewline(ds[i].value)
    ensures SplitOn(Rule(ds), '\n') == Lines(ds)
    ensures |SplitOn(Rule(ds), '\n')| == |ds|
  {
    var lines := Lines(ds);
    forall k | 0 <= k < |lines|
      ensures '\n' !in lines[k]
    {
      KebabAddsNoNewline(ds[k].property);
      var key := ToKebabCase(ds[k].property);
      assert lines[k] == key + ": " + ds[k].value + ";";
      assert forall c :: c in lines[k] ==> c in key || c in ": " || c in ds[k].value || c == ';';
    }
    SplitOnJoinWith(lines, '\n');
  }

  /** css.selector: selector + "{" + rule + "}", with no spaces added. */
  function Selector(selector: string, rule: string): (r: string)
    ensures |r| == |selector| + |rule| + 2
    ensures r[..|selector|] == selector && r[|selector|] == '{'
    ensures r[|selector| + 1..|r| - 1] == rule && r[|r| - 1] == '}'
  {
    selector + "{" + rule + "}"
  }

  /** css.at: the identifier, followed by the braced rule only when a
      rule is given and is not "" (an empty string is falsy). */
  function At(identifier: string, rule: Option<string>): (r: string)
    ensures (rule.None? || rule.value == "") ==> r == identifier
    ensures rule.Some? && rule.value != "" ==> r == Selector(identifier, rule.value)
  {
    if rule.Some? && rule.value != "" then identifier + "{" + rule.value + "}" else identifier
  }

  /** css.join: the blocks joined with "\n". */
  function Join(rules: seq<string>): (r: string)
    ensures |rules| == 0 ==> r == ""
    ensures |rules| == 1 ==> r == rules[0]
  {
    JoinWith(rules, "\n")
  }

  /** Joined blocks come apart again at the line breaks, when no block
      holds one. */
  lemma JoinSplits(rules: seq<string>)
    requires |rules| > 0
    requires forall k :: 0 <= k < |rules| ==> NoNewline(rules[k])
    ensures SplitOn(Join(rules), '\n') == rules
  {
    SplitOnJoinWith(rules, '\n');
  }

  /** An empty rule adds no braces to an at-rule. */
  lemma AtOfEmptyRule(identifier: string)
    ensures At(identifier, Some(Rule([]))) == identifier
  {
  }

  /** An at-rule around a selector block nests the braces. */
  lemma AtOfSelector(identifier: string, selector: string, rule: string)
    ensures At(identifier, Some(Selector(selector, rule))) == identifier + "{" + selector + "{" + rule + "}}"
  {
  }

  /** The property names of the documented rule example, kebab-cased. */
  lemma KebabBackgroundColor()
    ensures ToKebabCase("backgroundColor") == "background-color"
  {
    assert "backgroundColor" == "background" + ['C'] + "olor";
    KebabOfCamel("background", 'C', "olor");
    assert LowerChar('C') == 'c';
    assert "background" + ['-', 'c'] + "olor" == "background-color";
  }

  lemma KebabFontSize()
    ensures ToKebabCase("fontSize") == "font-size"
  {
    assert "fontSize" == "font" + ['S'] + "ize";
    KebabOfCamel("font", 'S', "ize");
    assert LowerChar('S') == 's';
    assert "font" + ['-', 's'] + "ize" == "font-size";
  }

  lemma KebabCustomProperty()
    ensures ToKebabCase("--my-custom-var") == "--my-custom-var"
  {
    var s := "--my-custom-var";
    assert forall i :: 0 <= i < |s| ==> !IsUpper(s[i]);
  }

  /** The literal texts the examples are assembled from, glued. */
  lemma ExampleTexts()
    ensures "background-color" + ": " + "red" + ";" == "background-color: red;"
    ensures "font-size" + ": " + "16px" + ";" == "font-size: 16px;"
    ensures "--my-custom-var" + ": " + "blue" + ";" == "--my-custom-var: blue;"
    ensures "color" + ": " + "blue" + ";" == "color: blue;"
    ensures "#my-element" + "{" + "color: blue;" + "}" == "#my-element{color: blue;}"
  {
  }

  lemma BackgroundColorLine()
    ensures Line(Declaration("backgroundColor", "red")) == "background-color: red;"
  {
    KebabBackgroundColor();
    ExampleTexts();
  }

  lemma FontSizeLine()
    ensures Line(Declaration("fontSize", "16px")) == "font-size: 16px;"
  {
    KebabFontSize();
    ExampleTexts();
  }

  lemma CustomPropertyLine()
    ensures Line(Declaration("--my-custom-var", "blue")) == "--my-custom-var: blue;"
  {
    KebabCustomProperty();
    ExampleTexts();
  }

  /** A three-entry rule is its three lines, separated by line breaks. */
  lemma RuleOfThree(d0: Declaration, d1: Declaration, d2: Declaration)
    ensures Rule([d0, d1, d2]) == Line(d0) + "\n" + Line(d1) + "\n" + Line(d2)
  {
    var lines := Lines([d0, d1, d2]);
    assert lines == [Line(d0), Line(d1), Line(d2)];
    assert lines[1..] == [Line(d1), Line(d2)];
    assert lines[1..][1..] == [Line(d2)];
    assert JoinWith(lines[1..], "\n") == Line(d1) + "\n" + Line(d2);
    assert Line(d0) + "\n" + (Line(d1) + "\n" + Line(d2)) == Line(d0) + "\n" + Line(d1) + "\n" + Line(d2);
  }

  /** The documented rule example: camel-case properties become kebab-case,
      custom properties pass through, one declaration per line. */
  lemma RuleExample()
    ensures Rule([Declaration("backgroundColor", "red"), Declaration("fontSize", "16px"),
                  Declaration("--my-custom-var", "blue")])
         == "background-color: red;" + "\n" + "font-size: 16px;" + "\n" + "--my-custom-var: blue;"
  {
    RuleOfThree(Declaration("backgroundColor", "red"), Declaration("fontSize", "16px"),
                Declaration("--my-custom-var", "blue"));
    BackgroundColorLine();
    FontSizeLine();
    CustomPropertyLine();
  }

  lemma SelectorExampleBody()
    ensures Rule([Declaration("color", "blue")]) == "color: blue;"
  {
    var s := "color";
    assert forall i :: 0 <= i < |s| ==> !IsUpper(s[i]);
    ExampleTexts();
  }

  /** The documented selector example shows spaces inside the braces; the
      code adds none. */
  lemma SelectorExample()
    ensures Selector("#my-element", Rule([Declaration("color", "blue")])) == "#my-element{color: blue;}"
    ensures Selector("#my-element", Rule([Declaration("color", "blue")])) != "#my-element { color: blue; }"
  {
    SelectorExampleBody();
    ExampleTexts();
    assert Selector("#my-element", "color: blue;")[11] == '{';
    assert "#my-element { color: blue; }"[11] == ' ';
  }

  /** A lowercase word, one uppercase letter, and a lowercase tail kebab
      as word + "-" + lower letter + tail. */
  lemma {:induction false} KebabOfCamel(head: string, u: char, tail: string)
    requires |head| > 0 && forall i :: 0 <= i < |head| ==> IsLower(head[i])
    requires IsUpper(u)
    requires forall i :: 0 <= i < |tail| ==> IsLower(tail[i])
    ensures ToKebabCase(head + [u] + tail) == head + ['-', LowerChar(u)] + tail
    decreases |head|
  {
    var s := head + [u] + tail;
    if |head| == 1 {
      assert s == [head[0], u] + tail;
      KebabAtBoundary(head[0], u, tail);
      assert forall i :: 0 <= i < |tail| ==> !IsUpper(tail[i]);
      assert ToKebabCase(tail) == tail;
    } else {
      var t := head[1..];
      assert s[0] == head[0] && s[1] == head[1];
      KebabPlain(s);
      assert s[1..] == t + [u] + tail;
      KebabOfCamel(t, u, tail);
      assert [head[0]] + (t + ['-', LowerChar(u)] + tail) == head + ['-', LowerChar(u)] + tail;
    }
  }
}
