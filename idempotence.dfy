/**
  The corrected wrapper is idempotent: running it over its own output
  changes nothing, as long as the tag name holds no parenthesis.

  The proof follows the tokens `Wrap` produces. A kept block is found again
  at the same place (`AttemptLocal`), a replacement is itself a wrapped
  block (`ReplacementIsBlock`), and a copied character stays a copied
  character because every occurrence of a parenthesis-free pattern in the
  output already occurs in the input (`OccursBack`, `GtThenBack`).
*/
module Idempotence {
  import opened Options
  import opened Patterns
  import opened Wrapping

  /** Neither parenthesis appears in `u`. */
  predicate NoParens(u: string) {
    forall i :: 0 <= i < |u| ==> u[i] != '(' && u[i] != ')'
  }

  /** The output starts with a copied character, or with the `(((<` of a block. */
  lemma {:induction false} WrapHead(x: string, tag: string)
    requires x != []
    ensures || (&& MatchAt(Wrapped(tag), x, 0).None? && MatchAt(Raw(tag), x, 0).None?
                && Wrap(x, tag) == [x[0]] + Wrap(x[1..], tag))
            || (4 <= |Wrap(x, tag)| && Wrap(x, tag)[..4] == "(((<")
  {
    var w := MatchAt(Wrapped(tag), x, 0);
    if w.Some? {
      var lead := Lead(Wrapped(tag));
      AttemptShape(x, 0, lead, Tail(Wrapped(tag)), true);
      HasAtPrefix(x, 0, lead, 4);
      assert lead[..4] == "(((<";
      var e := w.value.end;
      assert x[..e][..4] == x[0..4] == "(((<";
      KeptHead(Wrap(x, tag), x[..e], Wrap(x[e..], tag), "(((<");
    } else if MatchAt(Raw(tag), x, 0).Some? {
      var lead := Lead(Raw(tag));
      AttemptShape(x, 0, lead, Tail(Raw(tag)), true);
      HasAtChar(x, 0, lead, 0);
      var e := MatchAt(Raw(tag), x, 0).value.end;
      RawHead(Wrap(x, tag), x[..e], Wrap(x[e..], tag));
    }
  }

  lemma {:induction false} KeptHead(r: string, a: string, b: string, h: string)
    requires r == a + b && 4 <= |a| && a[..4] == h
    ensures 4 <= |r| && r[..4] == h
  {
    assert r[..4] == a[..4];
  }

  lemma {:induction false} RawHead(r: string, a: string, b: string)
    requires r == "(((" + a + ")))" + b && a != [] && a[0] == '<'
    ensures 4 <= |r| && r[..4] == "(((<"
  {
    assert r[3] == a[0];
  }

  /** An output that starts with something other than `(` starts with a copied character. */
  lemma {:induction false} PlainHead(x: string, tag: string)
    requires x != [] && Wrap(x, tag) != [] && Wrap(x, tag)[0] != '('
    ensures MatchAt(Wrapped(tag), x, 0).None? && MatchAt(Raw(tag), x, 0).None?
    ensures Wrap(x, tag) == [x[0]] + Wrap(x[1..], tag)
  {
    WrapHead(x, tag);
    var r := Wrap(x, tag);
    assert 4 <= |r| ==> r[..4][0] == r[0];
  }

  /** One character of `PrefixPlain`. */
  lemma {:induction false} PrefixPlainStep(x: string, u: string, tag: string)
    requires u != [] && NoParens(u) && |u| <= |Wrap(x, tag)| && Wrap(x, tag)[..|u|] == u
    ensures x != [] && x[0] == u[0] && Wrap(x, tag) == [x[0]] + Wrap(x[1..], tag)
    ensures |u| - 1 <= |Wrap(x[1..], tag)| && Wrap(x[1..], tag)[..|u| - 1] == u[1..]
    ensures NoParens(u[1..])
  {
    var r := Wrap(x, tag);
    assert r[0] == u[0];
    PlainHead(x, tag);
    var z := Wrap(x[1..], tag);
    assert r[1..] == z;
    assert z[..|u| - 1] == r[..|u|][1..];
  }

  /**
    When the output starts with parenthesis-free text, so does the input,
    and that text was copied character by character.
  */
  lemma {:induction false} PrefixPlain(x: string, u: string, tag: string)
    requires NoParens(u) && |u| <= |Wrap(x, tag)| && Wrap(x, tag)[..|u|] == u
    ensures |u| <= |x| && x[..|u|] == u && Wrap(x, tag) == u + Wrap(x[|u|..], tag)
    decreases |u|
  {
    if u == [] {
      assert x[|u|..] == x;
    } else {
      PrefixPlainStep(x, u, tag);
      var x', u' := x[1..], u[1..];
      PrefixPlain(x', u', tag);
      ConsPrefix(x, u);
      ConsAppend(Wrap(x, tag), Wrap(x', tag), u, Wrap(x[|u|..], tag));
    }
  }

  /** A first character and a prefix of the rest make a prefix. */
  lemma {:induction false} ConsPrefix(x: string, u: string)
    requires x != [] && u != [] && x[0] == u[0] && |u| - 1 <= |x| - 1 && x[1..][..|u| - 1] == u[1..]
    ensures |u| <= |x| && x[..|u|] == u && x[1..][|u| - 1..] == x[|u|..]
  {
    assert x[..|u|] == [x[0]] + x[1..][..|u| - 1];
  }

  /** A first character and the rest make the whole. */
  lemma {:induction false} ConsAppend(w: string, w': string, u: string, rest: string)
    requires u != [] && w == [u[0]] + w' && w' == u[1..] + rest
    ensures w == u + rest
  {
    assert u == [u[0]] + u[1..];
  }

  /** A parenthesis-free occurrence does not cover a parenthesis. */
  lemma {:induction false} NoStraddle(t: string, c: nat, pat: string, q: nat)
    requires HasAt(t, c, pat) && NoParens(pat) && q < |t| && (t[q] == '(' || t[q] == ')')
    ensures q < c || c + |pat| <= q
  {
    if c <= q < c + |pat| {
      HasAtChar(t, c, pat, q - c);
    }
  }

  /** A kept block: the output repeats it and goes on with the rest; it ends with `)`. */
  lemma {:induction false} KeptToken(y: string, tag: string)
    requires y != [] && MatchAt(Wrapped(tag), y, 0).Some?
    ensures var e := MatchAt(Wrapped(tag), y, 0).value.end;
      && 0 < e <= |y| && y[e - 1] == ')'
      && Wrap(y, tag) == y[..e] + Wrap(y[e..], tag)
  {
    var tail := Tail(Wrapped(tag));
    var e := MatchAt(Wrapped(tag), y, 0).value.end;
    AttemptShape(y, 0, Lead(Wrapped(tag)), tail, true);
    HasAtChar(y, e - |tail|, tail, |tail| - 1);
  }

  /** A wrapped occurrence: the output holds it in parentheses and goes on with the rest. */
  lemma {:induction false} RawToken(y: string, tag: string)
    requires y != [] && MatchAt(Wrapped(tag), y, 0).None? && MatchAt(Raw(tag), y, 0).Some?
    ensures var e := MatchAt(Raw(tag), y, 0).value.end;
      && 0 < e <= |y|
      && Wrap(y, tag) == "(((" + y[..e] + ")))" + Wrap(y[e..], tag)
  {
  }

  /** A copied character: the output holds it and goes on with the rest. */
  lemma {:induction false} PlainToken(y: string, tag: string)
    requires y != [] && MatchAt(Wrapped(tag), y, 0).None? && MatchAt(Raw(tag), y, 0).None?
    ensures Wrap(y, tag) == [y[0]] + Wrap(y[1..], tag)
  {
  }

  /** The three kinds of token `Wrap` reads: a kept block, a wrapped occurrence, a copied character. */
  datatype Token = Kept | Replaced | Copied

  /** What `Wrap` writes for a token spanning `y[..e]`. */
  function Piece(k: Token, y: string, e: nat): string
    requires 0 < e <= |y|
  {
    match k
    case Kept => y[..e]
    case Replaced => "(((" + y[..e] + ")))"
    case Copied => [y[0]]
  }

  /** The first token of a non-empty input: what `Wrap` writes for it, then the output of the rest. */
  lemma {:induction false} FirstToken(y: string, tag: string) returns (k: Token, e: nat)
    requires y != []
    ensures 0 < e <= |y| && Wrap(y, tag) == Piece(k, y, e) + Wrap(y[e..], tag)
    ensures k == Kept ==> y[e - 1] == ')'
    ensures k == Copied ==> e == 1
  {
    if MatchAt(Wrapped(tag), y, 0).Some? {
      KeptToken(y, tag);
      k, e := Kept, MatchAt(Wrapped(tag), y, 0).value.end;
    } else if MatchAt(Raw(tag), y, 0).Some? {
      RawToken(y, tag);
      k, e := Replaced, MatchAt(Raw(tag), y, 0).value.end;
    } else {
      PlainToken(y, tag);
      k, e := Copied, 1;
    }
  }

  /** An occurrence in `y[..e] + rest`, where `y[..e]` ends with `)`, lies in `y[..e]` or in `rest`. */
  lemma {:induction false} OccursInKept(y: string, e: nat, rest: string, r: string, c: nat, pat: string)
    requires NoParens(pat) && 0 < e <= |y| && y[e - 1] == ')' && r == y[..e] + rest
    requires HasAt(r, c, pat)
    ensures (c + |pat| <= e && HasAt(y, c, pat)) || (e <= c && HasAt(rest, c - e, pat))
  {
    assert r[..e] == y[..e] && r[e..] == rest;
    NoStraddle(r, c, pat, e - 1);
    if c + |pat| <= e {
      HasAtAgree(r, y, c, pat, e);
    } else {
      HasAtSuffix(r, e, c - e, pat);
    }
  }

  /** An occurrence in `"(((" + y[..e] + ")))" + rest` lies in `y[..e]` or in `rest`. */
  lemma {:induction false} OccursInRaw(y: string, e: nat, rest: string, r: string, c: nat, pat: string)
    requires NoParens(pat) && pat != [] && e <= |y| && r == "(((" + y[..e] + ")))" + rest
    requires HasAt(r, c, pat)
    ensures (3 <= c && c - 3 + |pat| <= e && HasAt(y, c - 3, pat)) || (e + 6 <= c && HasAt(rest, c - e - 6, pat))
  {
    assert r[0] == '(' && r[1] == '(' && r[2] == '(';
    assert r[e + 3] == ')' && r[e + 4] == ')' && r[e + 5] == ')';
    assert r[3..][..e] == y[..e] && r[e + 6..] == rest;
    NoStraddle(r, c, pat, 0);
    NoStraddle(r, c, pat, 1);
    NoStraddle(r, c, pat, 2);
    NoStraddle(r, c, pat, e + 3);
    NoStraddle(r, c, pat, e + 4);
    NoStraddle(r, c, pat, e + 5);
    if c + |pat| <= e + 3 {
      HasAtSuffix(r, 3, c - 3, pat);
      HasAtAgree(r[3..], y, c - 3, pat, e);
    } else {
      HasAtSuffix(r, e + 6, c - e - 6, pat);
    }
  }

  /** An occurrence in the output of a copied character starts with it, or lies after it. */
  lemma {:induction false} OccursStepPlain(y: string, pat: string, tag: string, c: nat)
    requires NoParens(pat) && pat != [] && y != [] && Wrap(y, tag) == [y[0]] + Wrap(y[1..], tag)
    requires HasAt(Wrap(y, tag), c, pat)
    ensures HasAt(y, c, pat) || (1 <= c && HasAt(Wrap(y[1..], tag), c - 1, pat))
  {
    var r, rest := Wrap(y, tag), Wrap(y[1..], tag);
    assert r[1..] == rest;
    if c == 0 {
      assert r[0] == y[0];
      PlainAtStart(y, pat, tag, r, rest);
    } else {
      HasAtSuffix(r, 1, c - 1, pat);
    }
  }

  /** An occurrence at the very start of the output of a copied character is one in the input. */
  lemma {:induction false} PlainAtStart(y: string, pat: string, tag: string, r: string, rest: string)
    requires NoParens(pat) && pat != [] && y != []
    requires r != [] && r[0] == y[0] && r[1..] == rest && rest == Wrap(y[1..], tag) && HasAt(r, 0, pat)
    ensures HasAt(y, 0, pat)
  {
    HasAtChar(r, 0, pat, 0);
    HasAtRest(r, pat);
    assert NoParens(pat[1..]);
    PrefixPlain(y[1..], pat[1..], tag);
    ConsPrefix(y, pat);
  }

  /** An occurrence in the output lies in the input, or in the output of what follows the first token. */
  lemma {:induction false} OccursStep(y: string, pat: string, tag: string, c: nat) returns (e: nat, c': nat)
    requires NoParens(pat) && pat != [] && HasAt(Wrap(y, tag), c, pat)
    ensures 0 < e <= |y|
    ensures OccursFrom(y, pat, 0) || HasAt(Wrap(y[e..], tag), c', pat)
  {
    assert y != [];
    var k;
    k, e := FirstToken(y, tag);
    match k
    case Kept =>
      OccursInKept(y, e, Wrap(y[e..], tag), Wrap(y, tag), c, pat);
      c' := if e <= c then c - e else 0;
    case Replaced =>
      OccursInRaw(y, e, Wrap(y[e..], tag), Wrap(y, tag), c, pat);
      c' := if e + 6 <= c then c - e - 6 else 0;
    case Copied =>
      OccursStepPlain(y, pat, tag, c);
      c' := if 1 <= c then c - 1 else 0;
  }

  /** Every occurrence of a parenthesis-free pattern in the output already occurs in the input. */
  lemma {:induction false} OccursBack(y: string, pat: string, tag: string)
    requires NoParens(pat) && OccursFrom(Wrap(y, tag), pat, 0)
    ensures OccursFrom(y, pat, 0)
    decreases |y|
  {
    if pat == [] {
      assert HasAt(y, 0, pat);
    } else {
      var c :| 0 <= c && HasAt(Wrap(y, tag), c, pat);
      var e, c' := OccursStep(y, pat, tag, c);
      if HasAt(Wrap(y[e..], tag), c', pat) {
        OccursBack(y[e..], pat, tag);
        OccursSuffix(y, e, 0, pat);
      }
    }
  }

  /** `GtThen` in `y[..e] + rest`, where `y[..e]` ends with `)`, holds in `y` or in `rest`. */
  lemma {:induction false} GtInKept(y: string, e: nat, rest: string, w: string, tail: string, g: nat, c: nat)
    requires NoParens(tail) && 0 < e <= |y| && y[e - 1] == ')' && w == y[..e] + rest
    requires HasAt(w, g, ">") && g + 1 <= c && HasAt(w, c, tail)
    requires OccursFrom(rest, tail, 0) ==> OccursFrom(y, tail, e)
    ensures GtThen(y, 0, tail) || GtThen(rest, 0, tail)
  {
    OccursInKept(y, e, rest, w, g, ">");
    OccursInKept(y, e, rest, w, c, tail);
    if g < e {
      if c + |tail| <= e {
        assert OccursFrom(y, tail, g + 1);
      } else {
        assert OccursFrom(rest, tail, 0);
        var k :| e <= k && HasAt(y, k, tail);
        assert OccursFrom(y, tail, g + 1);
      }
    } else {
      assert OccursFrom(rest, tail, g - e + 1);
    }
  }

  /** `GtThen` in `"(((" + y[..e] + ")))" + rest` holds in `y` or in `rest`. */
  lemma {:induction false} GtInRaw(y: string, e: nat, rest: string, w: string, tail: string, g: nat, c: nat)
    requires NoParens(tail) && e <= |y| && w == "(((" + y[..e] + ")))" + rest
    requires HasAt(w, g, ">") && g + 1 <= c && HasAt(w, c, tail)
    requires OccursFrom(rest, tail, 0) ==> OccursFrom(y, tail, e)
    ensures GtThen(y, 0, tail) || GtThen(rest, 0, tail)
  {
    OccursInRaw(y, e, rest, w, g, ">");
    if tail == [] {
      if g + 1 <= e + 3 {
        assert HasAt(y, g - 3 + 1, tail);
      } else {
        assert HasAt(rest, g - e - 6 + 1, tail);
      }
    } else {
      OccursInRaw(y, e, rest, w, c, tail);
      if g + 1 <= e + 3 {
        if c - 3 + |tail| <= e {
          assert OccursFrom(y, tail, g - 3 + 1);
        } else {
          assert OccursFrom(rest, tail, 0);
          var k :| e <= k && HasAt(y, k, tail);
          assert OccursFrom(y, tail, g - 3 + 1);
        }
      } else {
        assert OccursFrom(rest, tail, g - e - 6 + 1);
      }
    }
  }

  /** `GtThen` in `[y[0]] + rest` holds in `y` or in `rest`. */
  lemma {:induction false} GtInPlain(y: string, rest: string, r: string, tail: string, g: nat, c: nat)
    requires y != [] && r == [y[0]] + rest
    requires HasAt(r, g, ">") && g + 1 <= c && HasAt(r, c, tail)
    requires OccursFrom(rest, tail, 0) ==> OccursFrom(y, tail, 1)
    ensures GtThen(y, 0, tail) || GtThen(rest, 0, tail)
  {
    assert r[..1] == y[..1] && r[1..] == rest;
    HasAtSuffix(r, 1, c - 1, tail);
    if g == 0 {
      HasAtAgree(r, y, 0, ">", 1);
      assert OccursFrom(rest, tail, 0);
    } else {
      HasAtSuffix(r, 1, g - 1, ">");
      assert OccursFrom(rest, tail, g - 1 + 1);
    }
  }

  /** What `OccursBack` gives for the output of a suffix, read in the whole input. */
  lemma {:induction false} OccursBackSuffix(y: string, e: nat, tail: string, tag: string)
    requires NoParens(tail) && e <= |y|
    ensures OccursFrom(Wrap(y[e..], tag), tail, 0) ==> OccursFrom(y, tail, e)
  {
    if OccursFrom(Wrap(y[e..], tag), tail, 0) {
      OccursBack(y[e..], tail, tag);
      OccursSuffix(y, e, 0, tail);
    }
  }

  /** `GtThen` in the output holds in the input, or in the output of what follows the first token. */
  lemma {:induction false} GtStep(y: string, tail: string, tag: string, g: nat, c: nat) returns (e: nat)
    requires NoParens(tail)
    requires HasAt(Wrap(y, tag), g, ">") && g + 1 <= c && HasAt(Wrap(y, tag), c, tail)
    ensures 0 < e <= |y|
    ensures GtThen(y, 0, tail) || GtThen(Wrap(y[e..], tag), 0, tail)
  {
    assert y != [];
    var k;
    k, e := FirstToken(y, tag);
    OccursBackSuffix(y, e, tail, tag);
    match k
    case Kept => GtInKept(y, e, Wrap(y[e..], tag), Wrap(y, tag), tail, g, c);
    case Replaced => GtInRaw(y, e, Wrap(y[e..], tag), Wrap(y, tag), tail, g, c);
    case Copied => GtInPlain(y, Wrap(y[e..], tag), Wrap(y, tag), tail, g, c);
  }

  /** A `>` followed by a parenthesis-free tail in the output is one in the input. */
  lemma {:induction false} GtThenBack(y: string, tail: string, tag: string)
    requires NoParens(tail) && GtThen(Wrap(y, tag), 0, tail)
    ensures GtThen(y, 0, tail)
    decreases |y|
  {
    var g :| 0 <= g && HasAt(Wrap(y, tag), g, ">") && OccursFrom(Wrap(y, tag), tail, g + 1);
    var c :| g + 1 <= c && HasAt(Wrap(y, tag), c, tail);
    var e := GtStep(y, tail, tag, g, c);
    if GtThen(Wrap(y[e..], tag), 0, tail) {
      GtThenBack(y[e..], tail, tag);
      GtThenSuffix(y, e, 0, tail);
      GtThenEarlier(y, 0, e, tail);
    }
  }

  /** An occurrence inside `x` is one inside `"(((" + x + ")))"`, three places on. */
  lemma {:induction false} Shift3(x: string, j: nat, pat: string)
    requires j + |pat| <= |x|
    ensures HasAt("(((" + x + ")))", j + 3, pat) == HasAt(x, j, pat)
  {
    var t := "(((" + x + ")))";
    assert t[j + 3..j + 3 + |pat|] == x[j..j + |pat|];
  }

  /** A stretch of `t[..n]` free of `pat` stays free of it once parenthesized. */
  lemma {:induction false} ShiftedAbsent(t: string, n: nat, pat: string, a: nat, b: nat)
    requires n <= |t| && (b == a || b - 1 + |pat| <= n)
    requires forall j :: a <= j < b ==> !HasAt(t, j, pat)
    ensures forall j :: a + 3 <= j < b + 3 ==> !HasAt("(((" + t[..n] + ")))", j, pat)
  {
    forall j | a + 3 <= j < b + 3 ensures !HasAt("(((" + t[..n] + ")))", j, pat) {
      Shift3(t[..n], j - 3, pat);
      HasAtAgree(t, t[..n], j - 3, pat, n);
    }
  }

  /** A lead at the start of `x` gives a parenthesized lead at the start of `"(((" + x + ")))"`. */
  lemma {:induction false} ParenLead(x: string, lead: string)
    requires HasAt(x, 0, lead)
    ensures HasAt("(((" + x + ")))", 0, "(((" + lead)
  {
    var p := "(((" + x + ")))";
    assert p[..3 + |lead|] == "(((" + x[..|lead|];
  }

  /** A tail that ends `x` gives a parenthesized tail that ends `"(((" + x + ")))"`. */
  lemma {:induction false} ParenTail(x: string, c: nat, tail: string)
    requires c + |tail| == |x| && HasAt(x, c, tail)
    ensures HasAt("(((" + x + ")))", c + 3, tail + ")))")
  {
    var p := "(((" + x + ")))";
    assert x[c..] == tail;
    assert p[c + 3..c + 3 + |tail| + 3] == x[c..] + ")))";
  }

  /** No parenthesized tail starts where the plain tail does not. */
  lemma {:induction false} ParenTailAbsent(p: string, tail: string, a: nat, b: nat)
    requires forall j :: a <= j < b ==> !HasAt(p, j, tail)
    ensures forall j :: a <= j < b ==> !HasAt(p, j, tail + ")))")
  {
    assert (tail + ")))")[..|tail|] == tail;
    forall j | a <= j < b ensures !HasAt(p, j, tail + ")))") {
      HasAtPrefix(p, j, tail + ")))", |tail|);
    }
  }

  /**
    A tag match put in parentheses is a match of the parenthesized pattern
    spanning exactly the parenthesized text: the first `>` and the first tail
    are still the ones the original match stopped at.
  */
  lemma {:induction false} ParenthesizedIsBlock(t: string, lead: string, tail: string)
    requires Attempt(t, 0, lead, tail, true).Some?
    ensures var m := Attempt(t, 0, lead, tail, true).value;
      Attempt("(((" + t[..m.end] + ")))", 0, "(((" + lead, tail + ")))", true) == Some(Match(0, m.end + 6, m.body + 3))
  {
    var n, g, c := TagParts(t, lead, tail);
    ParenTag(t, n, lead, tail, g, c);
  }

  /** A tag match spanning `t[..n]`, read off its `>` at `g` and its tail at `c`, put in parentheses. */
  lemma {:induction false} ParenTag(t: string, n: nat, lead: string, tail: string, g: nat, c: nat)
    requires n <= |t| && c + |tail| == n && |lead| <= g < c
    requires HasAt(t, 0, lead) && HasAt(t, g, ">") && HasAt(t, c, tail)
    requires forall j :: |lead| <= j < g ==> !HasAt(t, j, ">")
    requires forall j :: g + 1 <= j < c ==> !HasAt(t, j, tail)
    ensures Attempt("(((" + t[..n] + ")))", 0, "(((" + lead, tail + ")))", true) == Some(Match(0, n + 6, g + 4))
  {
    ParenPresent(t, n, lead, tail, g, c);
    ParenAbsent(t, n, lead, tail, g, c);
    AttemptTagAt("(((" + t[..n] + ")))", 0, "(((" + lead, tail + ")))", g + 3, c + 3);
  }

  /** The lead, the `>` and the tail of a tag match in `t[..n]`, found again once it is parenthesized. */
  lemma {:induction false} ParenPresent(t: string, n: nat, lead: string, tail: string, g: nat, c: nat)
    requires n <= |t| && c + |tail| == n && |lead| <= g < c
    requires HasAt(t, 0, lead) && HasAt(t, g, ">") && HasAt(t, c, tail)
    ensures var p := "(((" + t[..n] + ")))";
      HasAt(p, 0, "(((" + lead) && HasAt(p, g + 3, ">") && HasAt(p, c + 3, tail + ")))")
  {
    var x := t[..n];
    HasAtAgree(t, x, 0, lead, n);
    HasAtAgree(t, x, g, ">", n);
    HasAtAgree(t, x, c, tail, n);
    ParenLead(x, lead);
    Shift3(x, g, ">");
    ParenTail(x, c, tail);
  }

  /** The stretches of a tag match in `t[..n]` free of `>` and of the tail stay free once it is parenthesized. */
  lemma {:induction false} ParenAbsent(t: string, n: nat, lead: string, tail: string, g: nat, c: nat)
    requires n <= |t| && c + |tail| == n && |lead| <= g < c
    requires forall j :: |lead| <= j < g ==> !HasAt(t, j, ">")
    requires forall j :: g + 1 <= j < c ==> !HasAt(t, j, tail)
    ensures var p := "(((" + t[..n] + ")))";
      && (forall j :: |"(((" + lead| <= j < g + 3 ==> !HasAt(p, j, ">"))
      && (forall j :: g + 4 <= j < c + 3 ==> !HasAt(p, j, tail + ")))"))
  {
    var p := "(((" + t[..n] + ")))";
    ShiftedAbsent(t, n, ">", |lead|, g);
    ShiftedAbsent(t, n, tail, g + 1, c);
    ParenTailAbsent(p, tail, g + 4, c + 3);
  }

  /** The parenthesized occurrence `Wrap` writes is a wrapped block spanning exactly that text. */
  lemma {:induction false} ReplacementIsBlock(s: string, tag: string)
    requires MatchAt(Raw(tag), s, 0).Some?
    ensures var e := MatchAt(Raw(tag), s, 0).value.end;
      && MatchAt(Wrapped(tag), "(((" + s[..e] + ")))", 0).Some?
      && MatchAt(Wrapped(tag), "(((" + s[..e] + ")))", 0).value.end == e + 6
  {
    ParenthesizedIsBlock(s, OpenTag(tag), CloseTag(tag));
  }

  /** The opening and closing tags of a parenthesis-free name are parenthesis-free. */
  lemma {:induction false} NoParensTags(tag: string)
    requires NoParens(tag)
    ensures NoParens(OpenTag(tag)) && NoParens(CloseTag(tag))
  {
    var o, c := OpenTag(tag), CloseTag(tag);
    forall i | 1 <= i < |o| ensures o[i] == tag[i - 1] {
    }
    forall i | 2 <= i < |c| - 1 ensures c[i] == tag[i - 2] {
    }
  }

  /** An opening tag after a copied character was there, copied, before `Wrap` ran. */
  lemma {:induction false} OpenTagBack(c: char, y: string, tag: string)
    requires NoParens(tag) && HasAt([c] + Wrap(y, tag), 0, OpenTag(tag))
    ensures |tag| <= |y| && HasAt([c] + y, 0, OpenTag(tag))
    ensures ([c] + Wrap(y, tag))[|OpenTag(tag)|..] == Wrap(y[|tag|..], tag)
  {
    var r, lead := [c] + Wrap(y, tag), OpenTag(tag);
    assert r[1..] == Wrap(y, tag);
    assert Wrap(y, tag)[..|tag|] == r[..|lead|][1..];
    PrefixPlain(y, tag, tag);
    assert ([c] + y)[..|lead|] == [c] + y[..|tag|];
  }

  /** The `>` and closing tag after an opening tag in the output were there before `Wrap` ran. */
  lemma {:induction false} CloseTagBack(c: char, y: string, tag: string)
    requires NoParens(tag) && |tag| <= |y| && GtThen(Wrap(y[|tag|..], tag), 0, CloseTag(tag))
    ensures GtThen([c] + y, |OpenTag(tag)|, CloseTag(tag))
  {
    var s, n := [c] + y, |tag|;
    NoParensTags(tag);
    GtThenBack(y[n..], CloseTag(tag), tag);
    ConsDrop(c, y, n);
    GtThenSuffix(s, n + 1, 0, CloseTag(tag));
    assert |OpenTag(tag)| == n + 1;
  }

  /** Dropping one more character from a longer text drops the one in front. */
  lemma {:induction false} ConsDrop(c: char, y: string, k: nat)
    requires k <= |y|
    ensures ([c] + y)[k + 1..] == y[k..]
  {
  }

  /** A raw occurrence after a copied character was one before `Wrap` ran. */
  lemma {:induction false} RawBack(c: char, y: string, tag: string)
    requires NoParens(tag)
    ensures MatchAt(Raw(tag), [c] + Wrap(y, tag), 0).Some? ==> MatchAt(Raw(tag), [c] + y, 0).Some?
  {
    var r, s := [c] + Wrap(y, tag), [c] + y;
    var lead, tail := OpenTag(tag), CloseTag(tag);
    if MatchAt(Raw(tag), r, 0).Some? {
      AttemptIff(r, 0, lead, tail, true);
      OpenTagBack(c, y, tag);
      GtThenSuffix(r, |lead|, 0, tail);
      CloseTagBack(c, y, tag);
      AttemptIff(s, 0, lead, tail, true);
    }
  }

  /** An output whose second or third character is not `(` starts with a copied character. */
  lemma {:induction false} PlainBefore(y: string, tag: string, k: nat)
    requires y != [] && (k == 1 || k == 2) && k < |Wrap(y, tag)| && Wrap(y, tag)[k] != '('
    ensures Wrap(y, tag) == [y[0]] + Wrap(y[1..], tag)
  {
    WrapHead(y, tag);
    var z := Wrap(y, tag);
    assert 4 <= |z| ==> z[..4][k] == z[k];
  }

  /** Three single characters in front of `z2`, read off `r`. */
  lemma {:induction false} Peel3(r: string, z: string, z1: string, z2: string, c: char, a: char, b: char)
    requires r == [c] + z && z == [a] + z1 && z1 == [b] + z2
    ensures r == [c, a, b] + z2 && z2 == r[3..]
  {
  }

  /** The only way a copied character can start `(((<tag`: it and the next two are copied parentheses. */
  lemma {:induction false} CopyPrefix(c: char, y: string, tag: string)
    requires HasAt([c] + Wrap(y, tag), 0, Lead(Wrapped(tag)))
    ensures 2 <= |y| && [c] + Wrap(y, tag) == [c, y[0], y[1]] + Wrap(y[2..], tag)
    ensures |OpenTag(tag)| <= |Wrap(y[2..], tag)| && Wrap(y[2..], tag)[..|OpenTag(tag)|] == OpenTag(tag)
  {
    var r, lw := [c] + Wrap(y, tag), Lead(Wrapped(tag));
    var z := Wrap(y, tag);
    HasAtChar(r, 0, lw, 3);
    assert r[1..] == z && z[2] == r[3];
    PlainBefore(y, tag, 2);
    var z1 := Wrap(y[1..], tag);
    assert z1[1] == z[2];
    PlainBefore(y[1..], tag, 1);
    assert y[1..][1..] == y[2..];
    var z2 := Wrap(y[2..], tag);
    Peel3(r, z, z1, z2, c, y[0], y[1]);
    assert r[..|lw|] == lw;
    assert z2[..|OpenTag(tag)|] == r[..|lw|][3..];
  }

  /** A copied character never starts a wrapped block in the output. */
  lemma {:induction false} NoBlockAfterCopy(c: char, y: string, tag: string)
    requires NoParens(tag)
    ensures MatchAt(Wrapped(tag), [c] + Wrap(y, tag), 0).None?
  {
    var r := [c] + Wrap(y, tag);
    if MatchAt(Wrapped(tag), r, 0).Some? {
      var lw, tw := Lead(Wrapped(tag)), Tail(Wrapped(tag));
      var lead, tail := OpenTag(tag), CloseTag(tag);
      AttemptIff(r, 0, lw, tw, true);
      CopyPrefix(c, y, tag);
      NoParensTags(tag);
      var y2 := y[2..];
      PrefixPlain(y2, lead, tag);
      PlainHead(y2, tag);
      var y3 := y2[|lead|..];
      assert r[|lw|..] == Wrap(y3, tag);
      GtThenSuffix(r, |lw|, 0, tw);
      assert tw[..|tail|] == tail;
      GtThenPrefix(Wrap(y3, tag), 0, tw, |tail|);
      GtThenBack(y3, tail, tag);
      GtThenSuffix(y2, |lead|, 0, tail);
      AttemptIff(y2, 0, lead, tail, true);
      assert false;
    }
  }

  /** A kept block is kept again, at the same place, by a second run. */
  lemma {:induction false} KeptStep(s: string, tag: string) returns (e: nat)
    requires s != [] && MatchAt(Wrapped(tag), s, 0).Some?
    ensures 0 < e <= |s| && Wrap(s, tag) == s[..e] + Wrap(s[e..], tag)
    ensures Wrap(Wrap(s, tag), tag) == s[..e] + Wrap(Wrap(s[e..], tag), tag)
  {
    KeptToken(s, tag);
    e := MatchAt(Wrapped(tag), s, 0).value.end;
    var r := Wrap(s, tag);
    assert r[..e] == s[..e] && r[e..] == Wrap(s[e..], tag);
    AttemptLocal(s, r, Lead(Wrapped(tag)), Tail(Wrapped(tag)));
    KeptToken(r, tag);
  }

  /** A wrapped occurrence is kept whole, as a block, by a second run. */
  lemma {:induction false} RawStep(s: string, tag: string) returns (e: nat)
    requires s != [] && MatchAt(Wrapped(tag), s, 0).None? && MatchAt(Raw(tag), s, 0).Some?
    ensures 0 < e <= |s| && Wrap(s, tag) == "(((" + s[..e] + ")))" + Wrap(s[e..], tag)
    ensures Wrap(Wrap(s, tag), tag) == "(((" + s[..e] + ")))" + Wrap(Wrap(s[e..], tag), tag)
  {
    RawToken(s, tag);
    e := MatchAt(Raw(tag), s, 0).value.end;
    var block := "(((" + s[..e] + ")))";
    var r := Wrap(s, tag);
    ReplacementIsBlock(s, tag);
    assert r[..e + 6] == block && r[e + 6..] == Wrap(s[e..], tag);
    AttemptLocal(block, r, Lead(Wrapped(tag)), Tail(Wrapped(tag)));
    KeptToken(r, tag);
  }

  /** A copied character is copied again by a second run. */
  lemma {:induction false} PlainStep(s: string, tag: string)
    requires NoParens(tag) && s != []
    requires MatchAt(Wrapped(tag), s, 0).None? && MatchAt(Raw(tag), s, 0).None?
    ensures Wrap(s, tag) == [s[0]] + Wrap(s[1..], tag)
    ensures Wrap(Wrap(s, tag), tag) == [s[0]] + Wrap(Wrap(s[1..], tag), tag)
  {
    PlainToken(s, tag);
    NoBlockAfterCopy(s[0], s[1..], tag);
    RawBack(s[0], s[1..], tag);
    assert [s[0]] + s[1..] == s;
    var r := Wrap(s, tag);
    assert r[0] == s[0] && r[1..] == Wrap(s[1..], tag);
    PlainToken(r, tag);
  }

  /**
    The corrected wrapper is idempotent for a tag name without parentheses:
    a second run finds every block the first one kept or created, and no raw
    occurrence outside them.
  */
  lemma {:induction false} WrapIdempotent(s: string, tag: string)
    requires NoParens(tag)
    ensures Wrap(Wrap(s, tag), tag) == Wrap(s, tag)
    decreases |s|
  {
    if s != [] {
      if MatchAt(Wrapped(tag), s, 0).Some? {
        var e := KeptStep(s, tag);
        WrapIdempotent(s[e..], tag);
      } else if MatchAt(Raw(tag), s, 0).Some? {
        var e := RawStep(s, tag);
        WrapIdempotent(s[e..], tag);
      } else {
        PlainStep(s, tag);
        WrapIdempotent(s[1..], tag);
      }
    }
  }
}
