/**
 * Recognition and substitution of symbolic constants such as `SPECIES_PIKACHU`:
 * the behaviour of `re.sub(r"\bPREFIX_\w+\b", resolver, text)` with `\w`
 * restricted to ASCII word characters.
 *
 * A draw from Python's `random.choice` is modelled by an injected chooser
 * `choose: nat -> nat` and a counter: the n-th draw picks index
 * `choose(n) % |pool|`. A resolver maps a token and the number of draws made
 * so far to its replacement and the new number of draws.
 */
module Tokens {
  import opened Text

  /** A piece of scanned text: a character passed through, or a matched token. */
  datatype Piece = Chunk(c: char) | Tok(name: string)

  type Resolver = (string, nat) -> (string, nat)

  /** The n-th draw of `random.choice(pool)`. */
  function Choice(pool: seq<string>, choose: nat -> nat, n: nat): (r: string)
    requires pool != []
    ensures r in pool
  {
    pool[choose(n) % |pool|]
  }

  /** The chooser that makes every draw pick position `i`. */
  function PickAt(i: nat): nat -> nat {
    _ => i
  }

  /** Any member of a pool is the draw of some chooser. */
  lemma ChoicePick(pool: seq<string>, i: nat, n: nat)
    requires i < |pool|
    ensures Choice(pool, PickAt(i), n) == pool[i]
  {
  }

  /** The first position of `x` in `xs`. */
  function IndexOf(xs: seq<string>, x: string): (i: nat)
    requires x in xs
    ensures i < |xs| && xs[i] == x
  {
    if xs[0] == x then 0 else 1 + IndexOf(xs[1..], x)
  }

  /** Prefixes such as "SPECIES_" are non-empty runs of word characters. */
  predicate ValidPrefix(prefix: string) {
    prefix != [] && AllWordChars(prefix)
  }

  /** A token: the prefix followed by at least one more word character. */
  predicate ValidToken(t: string, prefix: string) {
    |t| > |prefix| && t[..|prefix|] == prefix && AllWordChars(t)
  }

  /** End of the run of word characters that starts at `j`. */
  function WordEnd(s: string, j: nat): (e: nat)
    requires j <= |s|
    ensures j <= e <= |s|
    ensures forall k :: j <= k < e ==> IsWordChar(s[k])
    ensures e == |s| || !IsWordChar(s[e])
    decreases |s| - j
  {
    if j < |s| && IsWordChar(s[j]) then WordEnd(s, j + 1) else j
  }

  /**
   * The pattern `\bPREFIX\w+\b` matches at `i`: a word boundary before `i`,
   * the prefix, and at least one word character after it (the closing `\b`
   * always holds after the greedy `\w+`).
   */
  predicate TokenAt(s: string, prefix: string, i: nat)
    requires i <= |s|
  {
    (i == 0 || !IsWordChar(s[i - 1]))
    && i + |prefix| < |s| && s[i..i + |prefix|] == prefix
    && IsWordChar(s[i + |prefix|])
  }

  function Render(ps: seq<Piece>): string {
    if ps == [] then []
    else
      (match ps[0] case Chunk(c) => [c] case Tok(t) => t) + Render(ps[1..])
  }

  /**
   * Left-to-right scan of `s[i..]` as `re.sub` performs it: at each position
   * either a token matches (and the scan resumes after it) or one character
   * is passed through.
   */
  function Scan(s: string, prefix: string, i: nat): seq<Piece>
    requires ValidPrefix(prefix)
    requires i <= |s|
    decreases |s| - i
  {
    if i == |s| then []
    else if TokenAt(s, prefix, i) then
      var e := WordEnd(s, i + |prefix|);
      [Tok(s[i..e])] + Scan(s, prefix, e)
    else
      [Chunk(s[i])] + Scan(s, prefix, i + 1)
  }

  /**
   * One step of the scan: a token is matched at `i` exactly when the pattern
   * matches there; it is the maximal run of word characters from `i`, and the
   * scan resumes after it. Otherwise the character at `i` is passed through.
   */
  lemma ScanStep(s: string, prefix: string, i: nat)
    requires ValidPrefix(prefix)
    requires i < |s|
    ensures var r := Scan(s, prefix, i);
      r != [] && (r[0].Tok? <==> TokenAt(s, prefix, i))
      && (r[0].Tok? ==>
            var e := i + |r[0].name|;
            e <= |s| && r[0].name == s[i..e] && (e == |s| || !IsWordChar(s[e]))
            && ValidToken(r[0].name, prefix)
            && r[1..] == Scan(s, prefix, e))
      && (r[0].Chunk? ==> r[0].c == s[i] && r[1..] == Scan(s, prefix, i + 1))
  {
    if TokenAt(s, prefix, i) {
      var e := WordEnd(s, i + |prefix|);
      var t := s[i..e];
      assert t[..|prefix|] == s[i..i + |prefix|];
      forall q | 0 <= q < |t| ensures IsWordChar(t[q]) {
        if q < |prefix| { assert t[q] == prefix[q]; }
      }
    }
  }

  /** The scan loses and adds nothing: rendering its pieces gives back the text. */
  lemma {:induction false} ScanRender(s: string, prefix: string, i: nat)
    requires ValidPrefix(prefix)
    requires i <= |s|
    ensures Render(Scan(s, prefix, i)) == s[i..]
    decreases |s| - i
  {
    if i < |s| {
      var r := Scan(s, prefix, i);
      ScanStep(s, prefix, i);
      if r[0].Tok? {
        var e := i + |r[0].name|;
        ScanRender(s, prefix, e);
        assert Render(r) == r[0].name + Render(r[1..]);
        assert s[i..] == s[i..e] + s[e..];
      } else {
        ScanRender(s, prefix, i + 1);
        assert Render(r) == [r[0].c] + Render(r[1..]);
        assert s[i..] == [s[i]] + s[i + 1..];
      }
    }
  }

  /** Every token the scan finds is the prefix followed by at least one more word character. */
  lemma {:induction false} ScanTokensValid(s: string, prefix: string, i: nat)
    requires ValidPrefix(prefix)
    requires i <= |s|
    ensures forall k :: 0 <= k < |Scan(s, prefix, i)| && Scan(s, prefix, i)[k].Tok? ==>
      ValidToken(Scan(s, prefix, i)[k].name, prefix)
    decreases |s| - i
  {
    if i < |s| {
      var r := Scan(s, prefix, i);
      ScanStep(s, prefix, i);
      var next := if r[0].Tok? then i + |r[0].name| else i + 1;
      ScanTokensValid(s, prefix, next);
      forall k | 0 <= k < |r| && r[k].Tok? ensures ValidToken(r[k].name, prefix) {
        if k > 0 { assert r[k] == r[1..][k - 1]; }
      }
    }
  }

  /** The pieces of a whole text. */
  function Split(s: string, prefix: string): seq<Piece>
    requires ValidPrefix(prefix)
  {
    Scan(s, prefix, 0)
  }

  lemma SplitRender(s: string, prefix: string)
    requires ValidPrefix(prefix)
    ensures Render(Split(s, prefix)) == s
  {
    ScanRender(s, prefix, 0);
  }

  /** Each token is sent through the resolver, in order, threading the draw count. */
  function SubPieces(ps: seq<Piece>, resolve: Resolver, n: nat): (r: (seq<Piece>, nat))
    ensures |r.0| == |ps|
    decreases |ps|
  {
    if ps == [] then ([], n)
    else
      match ps[0]
      case Chunk(c) =>
        var rest := SubPieces(ps[1..], resolve, n);
        ([Chunk(c)] + rest.0, rest.1)
      case Tok(t) =>
        var (t', n') := resolve(t, n);
        var rest := SubPieces(ps[1..], resolve, n');
        ([Tok(t')] + rest.0, rest.1)
  }

  /** `re.sub(r"\bPREFIX\w+\b", resolver, s)`. */
  function Substitute(s: string, prefix: string, resolve: Resolver, n: nat): (r: (string, nat))
    requires ValidPrefix(prefix)
  {
    var (qs, n') := SubPieces(Split(s, prefix), resolve, n);
    (Render(qs), n')
  }

  /**
   * `qs` is `ps` with every character kept and every token `t` replaced
   * by some `u` with `allowed(t, u)`.
   */
  ghost predicate Correspond(ps: seq<Piece>, qs: seq<Piece>, allowed: (string, string) -> bool) {
    |ps| == |qs|
    && forall k :: 0 <= k < |ps| ==>
      (ps[k].Chunk? ==> qs[k] == ps[k])
      && (ps[k].Tok? ==> qs[k].Tok? && allowed(ps[k].name, qs[k].name))
  }

  /** `out` is `s` with its tokens replaced as `allowed` permits and nothing else changed. */
  ghost predicate Conforms(s: string, out: string, prefix: string, allowed: (string, string) -> bool)
    requires ValidPrefix(prefix)
  {
    exists qs :: Correspond(Split(s, prefix), qs, allowed) && Render(qs) == out
  }

  /** A resolver whose every answer is permitted by `allowed`. */
  ghost predicate Respects(resolve: Resolver, allowed: (string, string) -> bool) {
    forall t, m :: allowed(t, resolve(t, m).0)
  }

  lemma {:induction false} SubPiecesCorrespond(ps: seq<Piece>, resolve: Resolver, allowed: (string, string) -> bool, n: nat)
    requires Respects(resolve, allowed)
    ensures Correspond(ps, SubPieces(ps, resolve, n).0, allowed)
    decreases |ps|
  {
    if ps != [] {
      var n' := if ps[0].Tok? then resolve(ps[0].name, n).1 else n;
      SubPiecesCorrespond(ps[1..], resolve, allowed, n');
      var qs := SubPieces(ps, resolve, n).0;
      assert qs[1..] == SubPieces(ps[1..], resolve, n').0;
      forall k | 0 <= k < |ps|
        ensures (ps[k].Chunk? ==> qs[k] == ps[k])
             && (ps[k].Tok? ==> qs[k].Tok? && allowed(ps[k].name, qs[k].name))
      {
        if k > 0 {
          assert ps[k] == ps[1..][k - 1] && qs[k] == qs[1..][k - 1];
        }
      }
    }
  }

  /** Substitution with a resolver that respects `allowed` conforms to `allowed`. */
  lemma SubstituteConforms(s: string, prefix: string, resolve: Resolver, allowed: (string, string) -> bool, n: nat)
    requires ValidPrefix(prefix)
    requires Respects(resolve, allowed)
    ensures Conforms(s, Substitute(s, prefix, resolve, n).0, prefix, allowed)
  {
    var qs := SubPieces(Split(s, prefix), resolve, n).0;
    SubPiecesCorrespond(Split(s, prefix), resolve, allowed, n);
    assert Correspond(Split(s, prefix), qs, allowed) && Render(qs) == Substitute(s, prefix, resolve, n).0;
  }

  /** A text with no token is left exactly as it is. */
  lemma {:induction false} NoTokenUnchanged(s: string, prefix: string, out: string, allowed: (string, string) -> bool)
    requires ValidPrefix(prefix)
    requires forall k :: 0 <= k < |Split(s, prefix)| ==> Split(s, prefix)[k].Chunk?
    requires Conforms(s, out, prefix, allowed)
    ensures out == s
  {
    var ps := Split(s, prefix);
    SplitRender(s, prefix);
    var qs :| Correspond(ps, qs, allowed) && Render(qs) == out;
    assert qs == ps;
  }
}
