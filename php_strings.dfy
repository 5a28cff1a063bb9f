/**
 * The PHP string built-ins the extension relies on: `trim` with its default
 * character list, `explode` and `implode` with a one-character separator, and
 * PHP's `empty` test on strings. A `char` here stands for one byte of a PHP string.
 */
module PhpStrings {

  /** The characters PHP's `trim` strips by default: " \t\n\r\0\x0B". */
  predicate IsTrimChar(c: char) {
    c == ' ' || c == '\t' || c == '\n' || c == '\r' || c == '\0' || c == '\U{B}'
  }

  /** `ltrim`: drops the leading run of trim characters and keeps the rest as it is. */
  function TrimLeft(s: string): (r: string)
    ensures |r| <= |s| && r == s[|s| - |r|..]
    ensures forall k | 0 <= k < |s| - |r| :: IsTrimChar(s[k])
    ensures r == [] || !IsTrimChar(r[0])
  {
    if |s| > 0 && IsTrimChar(s[0]) then
      var r := TrimLeft(s[1..]);
      assert s[1..][|s| - 1 - |r|..] == s[|s| - |r|..];
      assert forall k | 1 <= k < |s| - |r| :: s[k] == s[1..][k - 1];
      r
    else s
  }

  /** `rtrim`: drops the trailing run of trim characters and keeps the rest as it is. */
  function TrimRight(s: string): (r: string)
    ensures |r| <= |s| && r == s[..|r|]
    ensures forall k | |r| <= k < |s| :: IsTrimChar(s[k])
    ensures r == [] || !IsTrimChar(r[|r| - 1])
  {
    if |s| > 0 && IsTrimChar(s[|s| - 1]) then TrimRight(s[..|s| - 1]) else s
  }

  /** `trim`: a contiguous piece of `s` that neither starts nor ends with a trim character. */
  function Trim(s: string): (r: string)
    ensures |r| <= |s|
    ensures IsTrimmed(r)
    ensures r == [] <==> forall k | 0 <= k < |s| :: IsTrimChar(s[k])
  {
    var l := TrimLeft(s);
    var r := TrimRight(l);
    assert r != [] ==> r[0] == l[0];
    r
  }

  /**
   * What `trim` removes: `s` is the trimmed string with a run of trim characters
   * before it and another after it, and nothing else.
   */
  lemma TrimStrips(s: string)
    ensures exists lead, trail ::
      && s == lead + Trim(s) + trail
      && (forall k | 0 <= k < |lead| :: IsTrimChar(lead[k]))
      && (forall k | 0 <= k < |trail| :: IsTrimChar(trail[k]))
  {
    var l := TrimLeft(s);
    var r := TrimRight(l);
    assert Trim(s) == r;
    TrimPieces(s, l, r);
  }

  /** Cutting a leading run and then a trailing run of trim characters leaves `s` as lead + r + trail. */
  lemma TrimPieces(s: string, l: string, r: string)
    requires |l| <= |s| && l == s[|s| - |l|..] && (forall k | 0 <= k < |s| - |l| :: IsTrimChar(s[k]))
    requires |r| <= |l| && r == l[..|r|] && (forall k | |r| <= k < |l| :: IsTrimChar(l[k]))
    ensures exists lead, trail ::
      && s == lead + r + trail
      && (forall k | 0 <= k < |lead| :: IsTrimChar(lead[k]))
      && (forall k | 0 <= k < |trail| :: IsTrimChar(trail[k]))
  {
    var lead, trail := s[..|s| - |l|], l[|r|..];
    forall k | 0 <= k < |lead| ensures IsTrimChar(lead[k]) {
      assert lead[k] == s[k];
    }
    forall k | 0 <= k < |trail| ensures IsTrimChar(trail[k]) {
      assert trail[k] == l[|r| + k];
    }
    assert l == r + trail;
    assert s == lead + l;
    assert s == lead + r + trail;
  }

  /** A string is trimmed when it neither starts nor ends with a trim character. */
  predicate IsTrimmed(s: string) {
    s == [] || (!IsTrimChar(s[0]) && !IsTrimChar(s[|s| - 1]))
  }

  /** Trimming is the identity on trimmed strings, so in particular it is idempotent. */
  lemma TrimOfTrimmed(s: string)
    requires IsTrimmed(s)
    ensures Trim(s) == s
  {
    assert TrimLeft(s) == s;
    assert TrimRight(s) == s;
  }

  lemma TrimIdempotent(s: string)
    ensures Trim(Trim(s)) == Trim(s)
  {
    TrimOfTrimmed(Trim(s));
  }

  /** Number of occurrences of the character `c` in `s`. */
  function CountChar(c: char, s: string): nat {
    if s == [] then 0 else (if s[0] == c then 1 else 0) + CountChar(c, s[1..])
  }

  /**
   * `explode($c, $s)` for a one-character separator: the pieces of `s` between
   * occurrences of `c`, in order. An empty string gives one empty piece.
   */
  function Explode(c: char, s: string): (r: seq<string>)
    ensures |r| == CountChar(c, s) + 1
    ensures forall i | 0 <= i < |r| :: c !in r[i]
  {
    if s == [] then [""]
    else
      var rest := Explode(c, s[1..]);
      if s[0] == c then [""] + rest
      else [[s[0]] + rest[0]] + rest[1..]
  }

  /**
   * `implode($c, $xs)`: the pieces joined with `c` between neighbours, so
   * separator-free pieces give exactly one separator fewer than there are pieces.
   */
  function Implode(c: char, xs: seq<string>): (r: string)
    ensures (forall i | 0 <= i < |xs| :: c !in xs[i]) ==> CountChar(c, r) == if xs == [] then 0 else |xs| - 1
  {
    if xs == [] then ""
    else if |xs| == 1 then
      CountCharAbsent(c, xs[0]);
      xs[0]
    else
      CountCharAppend(c, xs[0] + [c], Implode(c, xs[1..]));
      CountCharAppend(c, xs[0], [c]);
      CountCharAbsent(c, xs[0]);
      xs[0] + [c] + Implode(c, xs[1..])
  }

  lemma {:induction false} CountCharAppend(c: char, a: string, b: string)
    ensures CountChar(c, a + b) == CountChar(c, a) + CountChar(c, b)
  {
    if a == [] {
      assert a + b == b;
    } else {
      var ab := a + b;
      assert ab[0] == a[0];
      assert ab[1..] == a[1..] + b;
      CountCharAppend(c, a[1..], b);
      assert CountChar(c, ab) == (if a[0] == c then 1 else 0) + CountChar(c, a[1..] + b);
    }
  }

  lemma {:induction false} CountCharAbsent(c: char, s: string)
    ensures c !in s <==> CountChar(c, s) == 0
  {
    if s != [] {
      CountCharAbsent(c, s[1..]);
      assert s == [s[0]] + s[1..];
    }
  }

  /** Joining the pieces of `explode` gives back the original string. */
  lemma {:induction false} ImplodeExplode(c: char, s: string)
    ensures Implode(c, Explode(c, s)) == s
  {
    if s != [] {
      var rest := Explode(c, s[1..]);
      ImplodeExplode(c, s[1..]);
      if s[0] == c {
        assert Explode(c, s)[1..] == rest;
      } else if |rest| > 1 {
        assert Explode(c, s)[1..] == rest[1..];
        assert Implode(c, rest) == rest[0] + [c] + Implode(c, rest[1..]);
      }
    }
  }

  /** A string without the separator is one piece. */
  lemma {:induction false} ExplodeWithoutSeparator(c: char, x: string)
    requires c !in x
    ensures Explode(c, x) == [x]
  {
    if x != [] {
      ExplodeWithoutSeparator(c, x[1..]);
      assert [x[0]] + x[1..] == x;
    }
  }

  /** A separator after a separator-free prefix closes the first piece. */
  lemma {:induction false} ExplodeAtSeparator(c: char, x: string, y: string)
    requires c !in x
    ensures Explode(c, x + [c] + y) == [x] + Explode(c, y)
  {
    if x == [] {
      assert x + [c] + y == [c] + y;
      assert ([c] + y)[1..] == y;
    } else {
      ExplodeAtSeparator(c, x[1..], y);
      assert (x + [c] + y)[1..] == x[1..] + [c] + y;
      assert [x[0]] + x[1..] == x;
    }
  }

  /** Splitting a join recovers the pieces, provided no piece holds the separator. */
  lemma {:induction false} ExplodeImplode(c: char, xs: seq<string>)
    requires xs != []
    requires forall i | 0 <= i < |xs| :: c !in xs[i]
    ensures Explode(c, Implode(c, xs)) == xs
  {
    if |xs| == 1 {
      ExplodeWithoutSeparator(c, xs[0]);
    } else {
      ExplodeImplode(c, xs[1..]);
      ExplodeAtSeparator(c, xs[0], Implode(c, xs[1..]));
      assert [xs[0]] + xs[1..] == xs;
    }
  }

  /** PHP's `empty()` on a string: true for "" and for "0". */
  predicate IsPhpEmpty(s: string) {
    s == "" || s == "0"
  }
}
