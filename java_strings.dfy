/**
 * The parts of the Java string library that the Morse encoder depends on:
 * `String.toUpperCase` (its ASCII part), `Character.isWhitespace` (the
 * default delimiter of `java.util.Scanner`) and `String.split(" ")` (a
 * literal single-space separator with the default limit 0).
 */
module JavaStrings {

  /** `toUpperCase` on one character, for the ASCII letters. */
  function UpperChar(c: char): (u: char)
    ensures !('a' <= u <= 'z')
    ensures u != c <==> 'a' <= c <= 'z'
    ensures 'a' <= c <= 'z' ==> u as int + 32 == c as int
  {
    if 'a' <= c <= 'z' then (c as int - 32) as char else c
  }

  /** `String.toUpperCase`, character by character. */
  function ToUpper(s: string): (u: string)
    ensures |u| == |s|
    ensures forall i :: 0 <= i < |s| ==> u[i] == UpperChar(s[i])
  {
    seq(|s|, i requires 0 <= i < |s| => UpperChar(s[i]))
  }

  lemma ToUpperConcat(a: string, b: string)
    ensures ToUpper(a + b) == ToUpper(a) + ToUpper(b)
  {
  }

  /** Upper-casing twice is upper-casing once. */
  lemma ToUpperIdempotent(s: string)
    ensures ToUpper(ToUpper(s)) == ToUpper(s)
  {
  }

  /**
   * `Character.isWhitespace`: the separators the Scanner skips between
   * tokens. The no-break spaces and NEL (U+0085) are not among them.
   */
  function IsJavaWhitespace(c: char): (b: bool)
    ensures c == ' ' || c == '\t' || c == '\n' || c == '\r' ==> b
    ensures 'A' <= c <= 'Z' || 'a' <= c <= 'z' || '0' <= c <= '9' ==> !b
    ensures c as int == 0x85 || c as int == 0xA0 || c as int == 0x2007 || c as int == 0x202F ==> !b
  {
    var n := c as int;
    || 0x09 <= n <= 0x0D
    || 0x1C <= n <= 0x20
    || n == 0x1680
    || 0x2000 <= n <= 0x2006
    || 0x2008 <= n <= 0x200A
    || n == 0x2028 || n == 0x2029
    || n == 0x205F || n == 0x3000
  }

  /** A run of `n` spaces. */
  function Spaces(n: nat): (s: string)
    ensures |s| == n && forall i :: 0 <= i < n ==> s[i] == ' '
  {
    seq(n, _ => ' ')
  }

  /**
   * Every piece between consecutive spaces, empty ones included: a string with
   * k spaces has k + 1 pieces. This is what `split` collects before it drops
   * the trailing empty pieces.
   */
  function SplitAll(s: string): (pieces: seq<string>)
    ensures |pieces| >= 1
  {
    if s == [] then [""]
    else
      var rest := SplitAll(s[1..]);
      if s[0] == ' ' then [""] + rest
      else [[s[0]] + rest[0]] + rest[1..]
  }

  /** No piece contains the separator. */
  lemma {:induction false} SplitAllNoSpaceInPieces(s: string)
    ensures forall p <- SplitAll(s) :: ' ' !in p
  {
    if s != [] {
      SplitAllNoSpaceInPieces(s[1..]);
      var rest := SplitAll(s[1..]);
      if s[0] != ' ' {
        assert rest[0] in rest;
        assert forall p <- rest[1..] :: p in rest;
      }
    }
  }

  /** The pieces put back together with a single space between neighbours. */
  function Join(pieces: seq<string>): string
  {
    if |pieces| == 0 then ""
    else if |pieces| == 1 then pieces[0]
    else Join(pieces[..|pieces| - 1]) + " " + pieces[|pieces| - 1]
  }

  /** Removes the empty pieces at the end, as `split` does with limit 0. */
  function DropTrailingEmpty(pieces: seq<string>): (r: seq<string>)
    ensures r <= pieces
    ensures forall i :: |r| <= i < |pieces| ==> pieces[i] == ""
    ensures r == [] || r[|r| - 1] != ""
  {
    if pieces != [] && pieces[|pieces| - 1] == "" then DropTrailingEmpty(pieces[..|pieces| - 1])
    else pieces
  }

  /**
   * `s.split(" ")`: a string without a space comes back whole (so "" gives
   * [""]); otherwise all pieces are cut out and the trailing empty ones
   * dropped. The result is pinned down by its contract: pieces without
   * spaces which, joined with single spaces, give the string up to its
   * trailing spaces; the last piece is never empty unless the string had no
   * space at all; and the result is empty exactly when the string is a
   * non-empty run of spaces.
   */
  function Split(s: string): (ps: seq<string>)
    ensures forall p <- ps :: ' ' !in p
    ensures Join(ps) <= s
    ensures forall i :: |Join(ps)| <= i < |s| ==> s[i] == ' '
    ensures ' ' in s && ps != [] ==> ps[|ps| - 1] != ""
    ensures ps == [] <==> s != "" && forall i :: 0 <= i < |s| ==> s[i] == ' '
  {
    if ' ' !in s then
      assert s != "" ==> s[0] != ' ';
      [s]
    else
      SplitPieces(s);
      DropTrailingEmpty(SplitAll(s))
  }

  /** A string without spaces is a single piece. */
  lemma {:induction false} SplitAllNoSpace(w: string)
    requires ' ' !in w
    ensures SplitAll(w) == [w]
  {
    if w != [] {
      assert ' ' !in w[1..] by {
        forall i | 0 <= i < |w[1..]| ensures w[1..][i] != ' ' {
          assert w[1..][i] == w[i + 1];
        }
      }
      SplitAllNoSpace(w[1..]);
      assert [w[0]] + w[1..] == w;
    }
  }

  /** Splitting a string that starts with a space or another character. */
  lemma SplitAllCons(c: char, r: string)
    ensures var rest := SplitAll(r);
            SplitAll([c] + r) == if c == ' ' then [""] + rest else [[c] + rest[0]] + rest[1..]
  {
    assert ([c] + r)[1..] == r;
  }

  /**
   * Splitting a concatenation: the last piece of `a` and the first piece of
   * `b` fuse, every other piece is kept.
   */
  lemma {:induction false} SplitAllConcat(a: string, b: string)
    ensures var x, y := SplitAll(a), SplitAll(b);
            SplitAll(a + b) == x[..|x| - 1] + [x[|x| - 1] + y[0]] + y[1..]
  {
    var x, y := SplitAll(a), SplitAll(b);
    if a == [] {
      assert a + b == b;
      assert x == [""];
      assert x[0] + y[0] == y[0];
      assert [y[0]] + y[1..] == y;
    } else {
      var c, a' := a[0], a[1..];
      assert a == [c] + a';
      assert a + b == [c] + (a' + b);
      SplitAllConcat(a', b);
      SplitAllCons(c, a');
      SplitAllCons(c, a' + b);
      var x' := SplitAll(a');
      var z := SplitAll(a' + b);
      ConcatStep(c, x', y, z);
    }
  }

  /** The sequence algebra behind one step of SplitAllConcat. */
  lemma ConcatStep(c: char, x': seq<string>, y: seq<string>, z: seq<string>)
    requires |x'| >= 1 && |y| >= 1
    requires z == x'[..|x'| - 1] + [x'[|x'| - 1] + y[0]] + y[1..]
    ensures var x := if c == ' ' then [""] + x' else [[c] + x'[0]] + x'[1..];
            var w := if c == ' ' then [""] + z else [[c] + z[0]] + z[1..];
            w == x[..|x| - 1] + [x[|x| - 1] + y[0]] + y[1..]
  {
    if c != ' ' {
      if |x'| == 1 {
        assert z[0] == x'[0] + y[0];
        assert [c] + (x'[0] + y[0]) == ([c] + x'[0]) + y[0];
        assert z[1..] == y[1..];
      } else {
        assert z[0] == x'[0];
        assert z[1..] == x'[1..|x'| - 1] + [x'[|x'| - 1] + y[0]] + y[1..];
      }
    }
  }

  /** A space in the middle separates the pieces of both sides exactly. */
  lemma SplitAllSpace(a: string, b: string)
    ensures SplitAll(a + " " + b) == SplitAll(a) + SplitAll(b)
  {
    SplitAllConcat(a, " " + b);
    assert a + " " + b == a + (" " + b);
    assert (" " + b)[1..] == b;
    var x := SplitAll(a);
    assert x[|x| - 1] + "" == x[|x| - 1];
    assert x[..|x| - 1] + [x[|x| - 1]] == x;
  }

  /** Appending a space-free word lengthens only the last piece. */
  lemma SplitAllExtend(a: string, w: string)
    requires ' ' !in w
    ensures var x := SplitAll(a);
            SplitAll(a + w) == x[..|x| - 1] + [x[|x| - 1] + w]
  {
    SplitAllNoSpace(w);
    SplitAllConcat(a, w);
  }

  /** Joining the pieces with single spaces gives back the string. */
  lemma {:induction false} SplitAllJoin(s: string)
    ensures Join(SplitAll(s)) == s
  {
    if s != [] {
      var init, c := s[..|s| - 1], s[|s| - 1];
      assert s == init + [c];
      SplitAllJoin(init);
      var x := SplitAll(init);
      if c == ' ' {
        SplitAllSpace(init, "");
        assert init + " " + "" == s;
        assert SplitAll(s) == x + [""];
        assert (x + [""])[..|x|] == x;
      } else {
        SplitAllExtend(init, [c]);
        if |x| > 1 {
          var z := x[..|x| - 1] + [x[|x| - 1] + [c]];
          assert z[..|z| - 1] == x[..|x| - 1];
        }
      }
    }
  }

  /** Joining pieces followed by `k` empty pieces adds spaces only. */
  lemma {:induction false} JoinTrailingEmpty(r: seq<string>, k: nat)
    requires r != [] || k > 0
    ensures var e := seq(k, _ => "");
            Join(r + e) == Join(r) + Spaces(if r == [] then k - 1 else k)
  {
    var e := seq(k, _ => "");
    if k == 0 {
      assert r + e == r;
    } else if r == [] && k == 1 {
      assert r + e == [""];
    } else {
      var e' := seq(k - 1, _ => "");
      JoinTrailingEmpty(r, k - 1);
      assert r + e == (r + e') + [""];
      assert (r + e)[..|r + e| - 1] == r + e';
    }
  }

  /** The facts behind the contract of `Split`, for a string holding a space. */
  lemma SplitPieces(s: string)
    requires ' ' in s
    ensures var ps := DropTrailingEmpty(SplitAll(s));
            && (forall p <- ps :: ' ' !in p)
            && Join(ps) <= s
            && (forall i :: |Join(ps)| <= i < |s| ==> s[i] == ' ')
            && (ps != [] ==> ps[|ps| - 1] != "")
            && (ps == [] <==> s != "" && forall i :: 0 <= i < |s| ==> s[i] == ' ')
  {
    var all := SplitAll(s);
    var ps := DropTrailingEmpty(all);
    SplitAllNoSpaceInPieces(s);
    assert forall p <- ps :: p in all;
    var k := |all| - |ps|;
    assert all == ps + seq(k, _ => "");
    SplitAllJoin(s);
    JoinTrailingEmpty(ps, k);
    if ps == [] {
      assert s == Spaces(k - 1);
    } else {
      SplitLastPiece(s, ps, k);
    }
  }

  /** With a non-empty last piece, the joined pieces end on a non-space. */
  lemma SplitLastPiece(s: string, ps: seq<string>, k: nat)
    requires ps != [] && s == Join(ps) + Spaces(k)
    requires forall p <- ps :: ' ' !in p
    requires ps[|ps| - 1] != ""
    ensures |Join(ps)| > 0 && s[|Join(ps)| - 1] != ' '
  {
    var last := ps[|ps| - 1];
    assert last in ps;
    assert Join(ps) == Join(ps[..|ps| - 1]) + " " + last || |ps| == 1;
    assert s[|Join(ps)| - 1] == last[|last| - 1];
  }
}
