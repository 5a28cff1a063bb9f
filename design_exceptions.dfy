/**
 * The design exceptions of the VCL generator (getRegexForDesignExceptions in
 * Model/Varnish/VCLGenerator.php): each rule's user-agent regex becomes one
 * `if` / ` elsif` block in Varnish's configuration language, and the blocks are
 * concatenated in rule order.
 */
module DesignExceptions {
  import opened Wrappers
  import opened PhpStrings
  import opened VclRegex
  import opened Sequences

  /** A design exception: a user-agent regex in PHP notation and the value to hash. */
  datatype Rule = Rule(regexp: Option<string>, value: string)

  /** A regexp the `.` and `$` of the pattern treat plainly: it holds no newline. */
  predicate RuleSingleLine(rule: Rule) {
    rule.regexp.Some? ==> '\n' !in rule.regexp.value
  }

  predicate SingleLine(rules: seq<Rule>) {
    forall i | 0 <= i < |rules| :: RuleSingleLine(rules[i])
  }

  /** What the regex makes of one rule: the pattern handed to Varnish, or None when it rejects the rule. */
  datatype Compiled = Compiled(pattern: Option<string>, value: string)

  /** A missing regexp reads as "", which the regex rejects; the value is passed on unchanged. */
  function Compile(rule: Rule): (r: Compiled)
    requires RuleSingleLine(rule)
    ensures r.value == rule.value
    ensures r.pattern.Some? <==> rule.regexp.Some? && SplitRegexp(rule.regexp.value).Some?
  {
    Compiled(Transpile(rule.regexp.GetOr("")), rule.value)
  }

  /** A rule the regex accepts. */
  predicate IsWellFormed(rule: Rule)
    requires RuleSingleLine(rule)
  {
    Compile(rule).pattern.Some?
  }

  function CompileAll(rules: seq<Rule>): (r: seq<Compiled>)
    requires SingleLine(rules)
    ensures |r| == |rules|
  {
    if rules == [] then [] else [Compile(rules[0])] + CompileAll(rules[1..])
  }

  lemma {:induction false} CompileAllIndex(rules: seq<Rule>, i: nat)
    requires SingleLine(rules) && i < |rules|
    ensures CompileAll(rules)[i] == Compile(rules[i])
  {
    if i > 0 {
      CompileAllIndex(rules[1..], i - 1);
    }
  }

  lemma {:induction false} CompileAllAppend(a: seq<Rule>, b: seq<Rule>)
    requires SingleLine(a) && SingleLine(b)
    ensures SingleLine(a + b)
    ensures CompileAll(a + b) == CompileAll(a) + CompileAll(b)
  {
    if a == [] {
      assert a + b == b;
    } else {
      var ab := a + b;
      assert ab[0] == a[0];
      assert ab[1..] == a[1..] + b;
      CompileAllAppend(a[1..], b);
      AppendAssoc([Compile(a[0])], CompileAll(a[1..]), CompileAll(b));
    }
  }

  // ---------------------------------------------------------------------------
  // The chain of branches
  // ---------------------------------------------------------------------------

  /** The two keywords a block can open with. */
  datatype Keyword = If | Elsif

  /** The keyword for the rule at list index `i`: decided by the index, not by the blocks emitted so far. */
  function KeywordAt(i: nat): (k: Keyword)
    ensures k == If <==> i == 0
  {
    if i == 0 then If else Elsif
  }

  /** One emitted block, before it is turned into text. */
  datatype Branch = Branch(keyword: Keyword, pattern: string, value: string)

  /** The branch of the rule at list index `i`, or None when the regex rejected the rule. */
  function BranchOf(i: nat, c: Compiled): Option<Branch> {
    match c.pattern
    case None => None
    case Some(pattern) => Some(Branch(KeywordAt(i), pattern, c.value))
  }

  /**
   * A rule yields a branch exactly when its regexp matches the regex; the
   * branch then carries the keyword for its index, the rewritten pattern and
   * the rule's value unchanged.
   */
  lemma RuleBranch(i: nat, rule: Rule)
    requires RuleSingleLine(rule)
    ensures BranchOf(i, Compile(rule)).Some?
      <==> rule.regexp.Some? && exists body, mods :: Splits(rule.regexp.value, body, mods)
    ensures forall body, mods | rule.regexp.Some? && Splits(rule.regexp.value, body, mods) ::
      BranchOf(i, Compile(rule))
        == Some(Branch(KeywordAt(i), if IsPhpEmpty(mods) then body else "(?" + mods + ")" + body, rule.value))
  {
    if rule.regexp.Some? {
      var s := rule.regexp.value;
      SplitRegexpRejects(s);
      forall body, mods | Splits(s, body, mods)
        ensures BranchOf(i, Compile(rule))
          == Some(Branch(KeywordAt(i), if IsPhpEmpty(mods) then body else "(?" + mods + ")" + body, rule.value))
      {
        TranspileWellFormed(s, body, mods);
      }
    }
  }

  function OptionToSeq<T>(o: Option<T>): seq<T> {
    match o
    case None => []
    case Some(x) => [x]
  }

  /** The branches of `cs`, in input order, when the first of them sits at list index `from`. */
  function Branches(cs: seq<Compiled>, from: nat): seq<Branch> {
    if cs == [] then [] else OptionToSeq(BranchOf(from, cs[0])) + Branches(cs[1..], from + 1)
  }

  /** Number of rules the regex accepted. */
  function Matched(cs: seq<Compiled>): nat {
    if cs == [] then 0 else (if cs[0].pattern.Some? then 1 else 0) + Matched(cs[1..])
  }

  /** Number of well-formed rules. */
  function WellFormedCount(rules: seq<Rule>): nat
    requires SingleLine(rules)
  {
    if rules == [] then 0 else (if IsWellFormed(rules[0]) then 1 else 0) + WellFormedCount(rules[1..])
  }

  lemma {:induction false} MatchedCount(rules: seq<Rule>)
    requires SingleLine(rules)
    ensures Matched(CompileAll(rules)) == WellFormedCount(rules)
  {
    if rules != [] {
      MatchedCount(rules[1..]);
      assert CompileAll(rules)[1..] == CompileAll(rules[1..]);
    }
  }

  /** One branch per accepted rule. */
  lemma {:induction false} BranchesCount(cs: seq<Compiled>, from: nat)
    ensures |Branches(cs, from)| == Matched(cs)
  {
    if cs != [] {
      BranchesCount(cs[1..], from + 1);
    }
  }

  /** The rules are handled one at a time, in order: the branches of a concatenation are concatenated. */
  lemma {:induction false} BranchesAppend(a: seq<Compiled>, b: seq<Compiled>, from: nat)
    ensures Branches(a + b, from) == Branches(a, from) + Branches(b, from + |a|)
  {
    if a == [] {
      assert a + b == b;
    } else {
      assert (a + b)[1..] == a[1..] + b;
      BranchesAppend(a[1..], b, from + 1);
    }
  }

  /** Past list index 0 the position of a rule makes no difference to its branch. */
  lemma {:induction false} BranchesShift(cs: seq<Compiled>, from: nat, to: nat)
    requires 1 <= from && 1 <= to
    ensures Branches(cs, from) == Branches(cs, to)
  {
    if cs != [] {
      BranchesShift(cs[1..], from + 1, to + 1);
    }
  }

  /** Past list index 0, every branch opens with ` elsif`. */
  lemma {:induction false} LaterBranchesAreElsif(cs: seq<Compiled>, from: nat)
    requires 1 <= from
    ensures forall b <- Branches(cs, from) :: b.keyword == Elsif
  {
    if cs != [] {
      LaterBranchesAreElsif(cs[1..], from + 1);
    }
  }

  /** The branches of the rule list, numbered from list index 0. */
  function RuleBranches(rules: seq<Rule>): seq<Branch>
    requires SingleLine(rules)
  {
    Branches(CompileAll(rules), 0)
  }

  /**
   * The first branch opens with `if` exactly when rule 0 is well formed; every
   * other branch opens with ` elsif`, even when rules before it were skipped.
   */
  lemma BranchKeywords(rules: seq<Rule>)
    requires SingleLine(rules)
    ensures var bs := RuleBranches(rules);
      && (bs != [] ==> (bs[0].keyword == If <==> IsWellFormed(rules[0])))
      && (forall j | 1 <= j < |bs| :: bs[j].keyword == Elsif)
  {
    var cs := CompileAll(rules);
    if cs != [] {
      var rest := Branches(cs[1..], 1);
      LaterBranchesAreElsif(cs[1..], 1);
      var bs := Branches(cs, 0);
      if cs[0].pattern.Some? {
        assert bs == [BranchOf(0, cs[0]).value] + rest;
        assert forall j | 1 <= j < |bs| :: bs[j] == rest[j - 1];
      } else {
        assert bs == rest;
        if bs != [] {
          assert bs[0] in rest;
        }
      }
    }
  }

  // ---------------------------------------------------------------------------
  // The text of the chain
  // ---------------------------------------------------------------------------

  function KeywordText(keyword: Keyword): string {
    match keyword
    case If => "if"
    case Elsif => " elsif"
  }

  /** The call every block makes. */
  function HashDataCall(): string {
    "hash_data("
  }

  /** The fixed text of the block template around its three slots. */
  function Opening(): string {
    " (req.http.user-agent ~ "
  }

  function Middle(): string {
    ") {\n        " + HashDataCall()
  }

  function Closing(): string {
    ");\n    }"
  }

  /**
   * One block, the template `%s (req.http.user-agent ~ "%s") {\n        hash_data("%s");\n    }`
   * with its slots filled: no escaping and no trailing newline.
   */
  function BlockText(keyword: string, pattern: string, value: string): string {
    keyword + Opening() + "\"" + pattern + "\"" + Middle() + "\"" + value + "\"" + Closing()
  }

  function Render(b: Branch): string {
    BlockText(KeywordText(b.keyword), b.pattern, b.value)
  }

  /** The blocks, concatenated with no separator. */
  function RenderAll(bs: seq<Branch>): string {
    if bs == [] then "" else Render(bs[0]) + RenderAll(bs[1..])
  }

  lemma RenderAllCons(b: Branch, rest: seq<Branch>)
    ensures RenderAll([b] + rest) == Render(b) + RenderAll(rest)
  {
    assert ([b] + rest)[1..] == rest;
  }

  /** The code fragment stored under `design_exceptions_code`. */
  function DesignExceptionsCode(rules: seq<Rule>): string
    requires SingleLine(rules)
  {
    RenderAll(RuleBranches(rules))
  }

  /** The rendered chain of the branches of the rules from list index `i` on. */
  function CodeFrom(rules: seq<Rule>, i: nat): string
    requires SingleLine(rules) && i <= |rules|
  {
    RenderAll(Branches(CompileAll(rules)[i..], i))
  }

  /** The text contributed by the rule at list index `i` when the regex accepts it, followed by the rest. */
  lemma AcceptedStep(rules: seq<Rule>, i: nat, body: string, mods: string)
    requires SingleLine(rules) && i < |rules|
    requires SplitRegexp(rules[i].regexp.GetOr("")) == Some((body, mods))
    ensures CodeFrom(rules, i)
      == BlockText(if i == 0 then "if" else " elsif",
                   if !IsPhpEmpty(mods) then "(?" + mods + ")" + body else body,
                   rules[i].value)
         + CodeFrom(rules, i + 1)
  {
    var cs := CompileAll(rules);
    var rest := Branches(cs[i + 1..], i + 1);
    assert cs[i..][1..] == cs[i + 1..];
    CompileAllIndex(rules, i);
    var pattern := if !IsPhpEmpty(mods) then "(?" + mods + ")" + body else body;
    var b := Branch(KeywordAt(i), pattern, rules[i].value);
    assert BranchOf(i, cs[i]) == Some(b);
    assert Branches(cs[i..], i) == [b] + rest;
    RenderAllCons(b, rest);
  }

  /** The rule at list index `i` contributes nothing when the regex rejects it. */
  lemma RejectedStep(rules: seq<Rule>, i: nat)
    requires SingleLine(rules) && i < |rules|
    requires SplitRegexp(rules[i].regexp.GetOr("")).None?
    ensures var cs := CompileAll(rules);
      Branches(cs[i..], i) == Branches(cs[i + 1..], i + 1)
  {
    var cs := CompileAll(rules);
    assert cs[i..][1..] == cs[i + 1..];
    CompileAllIndex(rules, i);
    assert BranchOf(i, cs[i]) == None;
  }

  /**
   * getRegexForDesignExceptions: walks the rules in order and appends the block
   * of every well-formed one, choosing `if` or ` elsif` by the rule's index.
   */
  method RegexForDesignExceptions(rules: seq<Rule>) returns (result: string)
    requires SingleLine(rules)
    ensures rules == [] ==> result == ""
    ensures result == DesignExceptionsCode(rules)
  {
    result := "";
    if |rules| == 0 {
      return;
    }
    assert CompileAll(rules)[0..] == CompileAll(rules);
    var i := 0;
    while i < |rules|
      invariant 0 <= i <= |rules|
      invariant result + CodeFrom(rules, i) == DesignExceptionsCode(rules)
    {
      var rule := rules[i];
      ghost var rest := CodeFrom(rules, i + 1);
      var split := SplitRegexp(rule.regexp.GetOr(""));
      if split.Some? {
        var (body, mods) := split.value;
        var pattern := if !IsPhpEmpty(mods) then "(?" + mods + ")" + body else body;
        var keyword := if i == 0 then "if" else " elsif";
        var block := BlockText(keyword, pattern, rule.value);
        assert result + block + rest == DesignExceptionsCode(rules) by {
          AcceptedStep(rules, i, body, mods);
          AppendAssoc(result, block, rest);
        }
        result := result + block;
      } else {
        RejectedStep(rules, i);
      }
      i := i + 1;
    }
    assert CompileAll(rules)[i..] == [];
  }

  /** The rendered chain opens with the keyword of its first branch. */
  lemma RenderOpens(bs: seq<Branch>)
    requires bs != []
    ensures var w := KeywordText(bs[0].keyword);
      |RenderAll(bs)| >= |w| && RenderAll(bs)[..|w|] == w
  {
    var w := KeywordText(bs[0].keyword);
    assert forall j | 0 <= j < |w| :: RenderAll(bs)[j] == w[j];
  }

  /**
   * The output opens with `if` exactly when rule 0 is well formed; when rule 0
   * is malformed but a later rule is not, it opens with a dangling ` elsif`.
   */
  lemma OpeningKeyword(rules: seq<Rule>)
    requires SingleLine(rules)
    requires DesignExceptionsCode(rules) != ""
    ensures var c := DesignExceptionsCode(rules);
      && |c| >= 2
      && (c[..2] == "if" <==> IsWellFormed(rules[0]))
      && (!IsWellFormed(rules[0]) ==> |c| >= 6 && c[..6] == " elsif")
  {
    var bs := RuleBranches(rules);
    assert bs != [];
    BranchKeywords(rules);
    RenderOpens(bs);
    var c := DesignExceptionsCode(rules);
    if !IsWellFormed(rules[0]) {
      assert c[..6] == " elsif";
      assert c[..2][0] == c[..6][0] == ' ';
    }
  }

  /** A rendered block is never empty, so neither is the text of a non-empty chain. */
  lemma {:induction false} RenderAllEmpty(bs: seq<Branch>)
    ensures RenderAll(bs) == "" <==> bs == []
  {
    if bs != [] {
      TemplateBreaks();
      assert |Render(bs[0])| >= |Closing()| > 0;
    }
  }

  /** The output is empty exactly when no rule is well formed. */
  lemma EmptyCode(rules: seq<Rule>)
    requires SingleLine(rules)
    ensures DesignExceptionsCode(rules) == "" <==> WellFormedCount(rules) == 0
  {
    RenderAllEmpty(RuleBranches(rules));
    BranchesCount(CompileAll(rules), 0);
    MatchedCount(rules);
  }

  /**
   * The slots of a block are filled verbatim, with nothing escaped: the
   * pattern and the value appear unchanged between their quotes.
   */
  lemma BlockSlots(keyword: string, pattern: string, value: string)
    ensures var t := BlockText(keyword, pattern, value);
      var p := |keyword| + |Opening()| + 1;
      var v := p + |pattern| + 1 + |Middle()| + 1;
      && |t| == v + |value| + 1 + |Closing()|
      && t[..|keyword|] == keyword
      && t[p - 1] == '"' && t[p..p + |pattern|] == pattern && t[p + |pattern|] == '"'
      && t[v - 1] == '"' && t[v..v + |value|] == value && t[v + |value|] == '"'
  {
    var t := BlockText(keyword, pattern, value);
    var p := |keyword| + |Opening()| + 1;
    var v := p + |pattern| + 1 + |Middle()| + 1;
    assert forall j | 0 <= j < |keyword| :: t[j] == keyword[j];
    assert forall j | 0 <= j < |pattern| :: t[p + j] == pattern[j];
    assert forall j | 0 <= j < |value| :: t[v + j] == value[j];
  }

  /** The chain around a rejected rule after the first is the chain before it followed by the chain after it. */
  lemma SkipRejected(pre: seq<Compiled>, c: Compiled, post: seq<Compiled>)
    requires pre != [] && c.pattern.None?
    ensures Branches(pre + [c] + post, 0) == Branches(pre, 0) + Branches(post, |pre|)
  {
    var n := |pre|;
    var head := Branches(pre, 0);
    assert Branches(pre + [c], 0) == head by {
      BranchesAppend(pre, [c], 0);
      assert Branches([c], n) == [];
      assert head + [] == head;
    }
    assert Branches(post, n + 1) == Branches(post, n) by {
      BranchesShift(post, n + 1, n);
    }
    BranchesAppend(pre + [c], post, 0);
  }

  /** A rejected rule after the first adds no branch and leaves the keywords of the others as they were. */
  lemma DropUnmatched(pre: seq<Compiled>, c: Compiled, post: seq<Compiled>)
    requires pre != [] && c.pattern.None?
    ensures Branches(pre + post, 0) == Branches(pre + [c] + post, 0)
  {
    SkipRejected(pre, c, post);
    BranchesAppend(pre, post, 0);
  }

  /** A malformed rule after the first contributes nothing and leaves the rest of the output as it was. */
  lemma DropSkippedRule(rules: seq<Rule>, k: nat)
    requires SingleLine(rules) && 0 < k < |rules|
    requires !IsWellFormed(rules[k])
    ensures SingleLine(rules[..k] + rules[k + 1..])
    ensures DesignExceptionsCode(rules[..k] + rules[k + 1..]) == DesignExceptionsCode(rules)
  {
    var pre, r, post := rules[..k], rules[k], rules[k + 1..];
    assert rules == pre + [r] + post;
    CompileAllAppend(pre, [r]);
    CompileAllAppend(pre + [r], post);
    CompileAllAppend(pre, post);
    assert CompileAll([r]) == [Compile(r)];
    DropUnmatched(CompileAll(pre), Compile(r), CompileAll(post));
  }

  // ---------------------------------------------------------------------------
  // Counting the `hash_data(` calls
  // ---------------------------------------------------------------------------

  /** Number of (possibly overlapping) occurrences of `needle` in `s`. */
  function Occurrences(s: string, needle: string): nat
    requires needle != []
  {
    if |s| < |needle| then 0
    else (if s[..|needle|] == needle then 1 else 0) + Occurrences(s[1..], needle)
  }

  /** A string lacking some character of the needle holds no occurrence of it. */
  lemma {:induction false} OccurrencesWithout(s: string, needle: string, d: char)
    requires needle != [] && d in needle && d !in s
    ensures Occurrences(s, needle) == 0
  {
    if |s| >= |needle| {
      assert d !in s[..|needle|];
      OccurrencesWithout(s[1..], needle, d);
    }
  }

  /** No occurrence straddles a character that is not in the needle. */
  lemma {:induction false} OccurrencesAcross(x: string, c: char, y: string, needle: string)
    requires needle != [] && c !in needle
    ensures Occurrences(x + [c] + y, needle) == Occurrences(x, needle) + Occurrences(y, needle)
  {
    var s := x + [c] + y;
    if x == [] {
      assert s == [c] + y && s[1..] == y;
      if |s| >= |needle| {
        assert s[..|needle|][0] == c;
      }
    } else {
      assert s[1..] == x[1..] + [c] + y;
      OccurrencesAcross(x[1..], c, y, needle);
      if |x| >= |needle| {
        assert s[..|needle|] == x[..|needle|];
      } else if |s| >= |needle| {
        assert s[..|needle|][|x|] == c;
        assert Occurrences(x[1..], needle) == 0;
      }
    }
  }

  /** A piece that ends with a character outside the needle can be counted on its own. */
  lemma BreakAfter(x: string, y: string, needle: string)
    requires needle != [] && x != [] && x[|x| - 1] !in needle
    ensures Occurrences(x + y, needle) == Occurrences(x, needle) + Occurrences(y, needle)
  {
    var init, c := x[..|x| - 1], x[|x| - 1];
    assert x == init + [c] + [];
    assert x + y == init + [c] + y;
    OccurrencesAcross(init, c, y, needle);
    OccurrencesAcross(init, c, [], needle);
  }

  /** A piece that starts with a character outside the needle can be counted on its own. */
  lemma BreakBefore(x: string, y: string, needle: string)
    requires needle != [] && y != [] && y[0] !in needle
    ensures Occurrences(x + y, needle) == Occurrences(x, needle) + Occurrences(y, needle)
  {
    var c, tail := y[0], y[1..];
    assert y == [] + [c] + tail;
    assert x + y == x + [c] + tail;
    OccurrencesAcross(x, c, tail, needle);
    OccurrencesAcross([], c, tail, needle);
  }

  /** Occurrences in two pieces are occurrences in their concatenation. */
  lemma {:induction false} OccurrencesSuperadditive(x: string, y: string, needle: string)
    requires needle != []
    ensures Occurrences(x + y, needle) >= Occurrences(x, needle) + Occurrences(y, needle)
  {
    if x != [] {
      assert (x + y)[1..] == x[1..] + y;
      OccurrencesSuperadditive(x[1..], y, needle);
      if |x| >= |needle| {
        assert (x + y)[..|needle|] == x[..|needle|];
      }
    } else {
      assert x + y == y;
    }
  }

  /** A slice holds no more occurrences than the whole string. */
  lemma OccurrencesInSlice(s: string, i: nat, j: nat, needle: string)
    requires needle != [] && i <= j <= |s|
    ensures Occurrences(s[i..j], needle) <= Occurrences(s, needle)
  {
    assert s == s[..i] + (s[i..j] + s[j..]);
    OccurrencesSuperadditive(s[..i], s[i..j] + s[j..], needle);
    OccurrencesSuperadditive(s[i..j], s[j..], needle);
  }

  /** The characters at which the template can be cut: none of them occurs in `hash_data(`. */
  lemma TemplateBreaks()
    ensures '"' !in HashDataCall() && ')' !in HashDataCall() && '}' !in HashDataCall()
    ensures ' ' !in HashDataCall() && '?' !in HashDataCall()
    ensures |Opening()| > 0 && Opening()[0] == ' '
    ensures |Middle()| > 0 && Middle()[0] == ')'
    ensures |Closing()| > 0 && Closing()[0] == ')' && Closing()[|Closing()| - 1] == '}'
  {
  }

  lemma CallOnce()
    ensures Occurrences(HashDataCall(), HashDataCall()) == 1
  {
    var n := HashDataCall();
    assert n[..|n|] == n;
    assert |n[1..]| < |n|;
  }

  lemma OpeningClean()
    ensures Occurrences(Opening(), HashDataCall()) == 0
  {
    assert '_' !in Opening();
    OccurrencesWithout(Opening(), HashDataCall(), '_');
  }

  lemma MiddleOnce()
    ensures Occurrences(Middle(), HashDataCall()) == 1
  {
    var n := HashDataCall();
    var indent := ") {\n        ";
    assert '_' !in indent;
    OccurrencesWithout(indent, n, '_');
    BreakAfter(indent, n, n);
    CallOnce();
  }

  lemma ClosingClean()
    ensures Occurrences(Closing(), HashDataCall()) == 0
  {
    assert |Closing()| < |HashDataCall()|;
  }

  /** A block holds one `hash_data(` of its own plus those carried in by its pattern and value. */
  lemma BlockOccurrences(b: Branch, rest: string)
    ensures Occurrences(Render(b) + rest, HashDataCall())
      == 1 + Occurrences(b.pattern, HashDataCall()) + Occurrences(b.value, HashDataCall()) + Occurrences(rest, HashDataCall())
  {
    var n := HashDataCall();
    var kw := KeywordText(b.keyword);
    var s1 := kw + Opening();
    var s2 := s1 + "\"";
    var s3 := s2 + b.pattern;
    var s4 := s3 + "\"";
    var s5 := s4 + Middle();
    var s6 := s5 + "\"";
    var s7 := s6 + b.value;
    var s8 := s7 + "\"";
    var s9 := s8 + Closing();
    OpeningClean();
    MiddleOnce();
    ClosingClean();
    TemplateBreaks();
    BreakAfter(s9, rest, n);
    BreakBefore(s8, Closing(), n);
    BreakBefore(s7, "\"", n);
    BreakAfter(s6, b.value, n);
    BreakBefore(s5, "\"", n);
    BreakBefore(s4, Middle(), n);
    BreakBefore(s3, "\"", n);
    BreakAfter(s2, b.pattern, n);
    BreakBefore(s1, "\"", n);
    BreakBefore(kw, Opening(), n);
  }

  /** With no `hash_data(` in any pattern or value, the text holds exactly one per block. */
  lemma {:induction false} RenderAllOccurrences(bs: seq<Branch>)
    requires forall b <- bs :: Occurrences(b.pattern, HashDataCall()) == 0 && Occurrences(b.value, HashDataCall()) == 0
    ensures Occurrences(RenderAll(bs), HashDataCall()) == |bs|
  {
    if bs != [] {
      assert forall b <- bs[1..] :: b in bs;
      RenderAllOccurrences(bs[1..]);
      BlockOccurrences(bs[0], RenderAll(bs[1..]));
    }
  }

  /** Neither the regexp nor the value of any rule carries a `hash_data(` of its own. */
  predicate NoEmbeddedHashData(rules: seq<Rule>) {
    forall i | 0 <= i < |rules| ::
      Occurrences(rules[i].regexp.GetOr(""), HashDataCall()) == 0 &&
      Occurrences(rules[i].value, HashDataCall()) == 0
  }

  /** The pattern built from a regexp holds no `hash_data(` the regexp does not. */
  lemma PatternOccurrences(s: string)
    requires '\n' !in s && Transpile(s).Some?
    requires Occurrences(s, HashDataCall()) == 0
    ensures Occurrences(Transpile(s).value, HashDataCall()) == 0
  {
    var n := HashDataCall();
    var k := WordRunStart(s);
    var body, mods := s[1..k - 1], s[k..];
    assert SplitRegexp(s) == Some((body, mods));
    OccurrencesInSlice(s, 1, k - 1, n);
    OccurrencesInSlice(s, k, |s|, n);
    assert s[k..|s|] == mods;
    if !IsPhpEmpty(mods) {
      TemplateBreaks();
      var open := "(?" + mods;
      assert Transpile(s).value == open + ")" + body;
      assert Occurrences("(?", n) == 0 && Occurrences(")", n) == 0;
      BreakAfter(open + ")", body, n);
      BreakBefore(open, ")", n);
      BreakAfter("(?", mods, n);
    }
  }

  /** The accepted rules of a list without embedded calls yield patterns and values without them. */
  lemma {:induction false} CompiledClean(rules: seq<Rule>)
    requires SingleLine(rules) && NoEmbeddedHashData(rules)
    ensures forall c <- CompileAll(rules) :: c.pattern.Some? ==>
      Occurrences(c.pattern.value, HashDataCall()) == 0 && Occurrences(c.value, HashDataCall()) == 0
  {
    if rules != [] {
      CompiledClean(rules[1..]);
      if IsWellFormed(rules[0]) {
        PatternOccurrences(rules[0].regexp.GetOr(""));
      }
    }
  }

  lemma {:induction false} BranchesClean(cs: seq<Compiled>, from: nat)
    requires forall c <- cs :: c.pattern.Some? ==>
      Occurrences(c.pattern.value, HashDataCall()) == 0 && Occurrences(c.value, HashDataCall()) == 0
    ensures forall b <- Branches(cs, from) ::
      Occurrences(b.pattern, HashDataCall()) == 0 && Occurrences(b.value, HashDataCall()) == 0
  {
    if cs != [] {
      assert forall c <- cs[1..] :: c in cs;
      BranchesClean(cs[1..], from + 1);
    }
  }

  /**
   * With no `hash_data(` smuggled in through a regexp or a value, the output
   * holds exactly one `hash_data(` per well-formed rule.
   */
  lemma HashDataCount(rules: seq<Rule>)
    requires SingleLine(rules) && NoEmbeddedHashData(rules)
    ensures Occurrences(DesignExceptionsCode(rules), HashDataCall()) == WellFormedCount(rules)
  {
    CompiledClean(rules);
    BranchesClean(CompileAll(rules), 0);
    RenderAllOccurrences(RuleBranches(rules));
    BranchesCount(CompileAll(rules), 0);
    MatchedCount(rules);
  }
}
