/**
 * The regular expression /^[\W]{1}(.*)[\W]{1}(\w+)?$/ with which the VCL
 * generator splits a PHP-style `/body/mods` pattern, and the rewrite of the
 * result into Varnish's inline-modifier form `(?mods)body`. Only strings
 * without a newline are considered, where `.` and `$` need no special care.
 */
module VclRegex {
  import opened Wrappers
  import opened PhpStrings

  /** PCRE's `\w` without the `u` flag: ASCII letters, digits and underscore. */
  predicate IsWordChar(c: char) {
    ('a' <= c <= 'z') || ('A' <= c <= 'Z') || ('0' <= c <= '9') || c == '_'
  }

  predicate AllWordChars(s: string) {
    forall k | 0 <= k < |s| :: IsWordChar(s[k])
  }

  /** Where the trailing run of word characters of `s` begins. */
  function WordRunStart(s: string): (k: nat)
    ensures k <= |s|
    ensures forall j | k <= j < |s| :: IsWordChar(s[j])
    ensures k == 0 || !IsWordChar(s[k - 1])
  {
    if s == [] || !IsWordChar(s[|s| - 1]) then |s| else WordRunStart(s[..|s| - 1])
  }

  /**
   * The strings the regex matches, with its two groups: a non-word delimiter,
   * the body, a non-word delimiter, then a (possibly empty) run of word characters.
   */
  ghost predicate Splits(s: string, body: string, mods: string) {
    && |s| == |body| + |mods| + 2
    && !IsWordChar(s[0])
    && s[1..|body| + 1] == body
    && !IsWordChar(s[|body| + 1])
    && s[|body| + 2..] == mods
    && AllWordChars(mods)
  }

  /**
   * The two groups of the match: the body lies strictly between the first
   * character and the last non-word character, the modifiers are the trailing
   * word run.
   */
  function SplitRegexp(s: string): (r: Option<(string, string)>)
    requires '\n' !in s
    ensures r.Some? ==> Splits(s, r.value.0, r.value.1)
  {
    var k := WordRunStart(s);
    if |s| < 2 || IsWordChar(s[0]) || k < 2 then None
    else
      assert forall j | 0 <= j < |s[k..]| :: s[k..][j] == s[k + j];
      Some((s[1..k - 1], s[k..]))
  }

  /**
   * SplitRegexp finds the match of the regex: a string matches with groups
   * `body` and `mods` exactly when SplitRegexp returns them. The split point is
   * forced, so a string matches in at most one way.
   */
  lemma SplitRegexpIsTheMatch(s: string, body: string, mods: string)
    requires '\n' !in s
    ensures Splits(s, body, mods) <==> SplitRegexp(s) == Some((body, mods))
  {
    var k := WordRunStart(s);
    if Splits(s, body, mods) {
      var p := |body| + 1;
      assert !IsWordChar(s[p]);
      forall j | p + 1 <= j < |s| ensures IsWordChar(s[j]) {
        assert s[j] == mods[j - p - 1];
      }
    }
    if SplitRegexp(s) == Some((body, mods)) {
      assert mods == s[k..];
      assert forall j | 0 <= j < |mods| :: mods[j] == s[k + j];
    }
  }

  /** A string the regex rejects has no match at all. */
  lemma SplitRegexpRejects(s: string)
    requires '\n' !in s
    ensures SplitRegexp(s).None? <==> forall body, mods :: !Splits(s, body, mods)
  {
    if SplitRegexp(s).Some? {
      var (body, mods) := SplitRegexp(s).value;
      SplitRegexpIsTheMatch(s, body, mods);
    } else {
      forall body, mods ensures !Splits(s, body, mods) {
        SplitRegexpIsTheMatch(s, body, mods);
      }
    }
  }

  /**
   * The pattern Varnish receives: `(?mods)body` with the modifiers in their
   * original order, or the bare body when the modifiers are PHP-empty ("" or "0").
   */
  function Transpile(s: string): (r: Option<string>)
    requires '\n' !in s
    ensures r.Some? <==> SplitRegexp(s).Some?
    ensures r.Some? ==> var body := SplitRegexp(s).value.0;
      |body| <= |r.value| && r.value[|r.value| - |body|..] == body
  {
    match SplitRegexp(s)
    case None => None
    case Some((body, mods)) =>
      if !IsPhpEmpty(mods) then Some("(?" + mods + ")" + body) else Some(body)
  }

  /** For a well-formed `/P/M`, the result is `(?M)P` when M is not PHP-empty and P otherwise. */
  lemma TranspileWellFormed(s: string, body: string, mods: string)
    requires '\n' !in s && Splits(s, body, mods)
    ensures Transpile(s) == Some(if IsPhpEmpty(mods) then body else "(?" + mods + ")" + body)
  {
    SplitRegexpIsTheMatch(s, body, mods);
  }

  /** The modifiers keep their order: `/p/iU` becomes `(?iU)p`. */
  lemma ModifierOrder()
    ensures Transpile("/p/iU") == Some("(?iU)p")
  {
    var s := "/p/iU";
    assert Splits(s, "p", "iU") by {
      assert |s| == 3 + |"iU"| && s[1..2] == "p" && s[3..] == "iU";
      assert !IsWordChar(s[0]) && !IsWordChar(s[2]) && AllWordChars("iU");
    }
    var out := "(?" + "iU" + ")" + "p";
    assert Transpile(s) == Some(out) by {
      TranspileWellFormed(s, "p", "iU");
    }
    assert out == "(?iU)p";
  }

  /** A modifier run of "0" is PHP-empty and is dropped: `#p#0` becomes `p`. */
  lemma ZeroModifierDropped()
    ensures Transpile("#p#0") == Some("p")
  {
    var s := "#p#0";
    assert Splits(s, "p", "0") by {
      assert |s| == 3 + |"0"| && s[1..2] == "p" && s[3..] == "0";
      assert !IsWordChar(s[0]) && !IsWordChar(s[2]) && AllWordChars("0");
    }
    TranspileWellFormed(s, "p", "0");
  }
}
