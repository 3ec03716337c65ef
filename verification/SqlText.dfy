/**
 * SQL text as the library assembles it: literal text with placeholders in it,
 * and JavaScript's global text replacement, on which every renumbering of
 * placeholders is built.
 */
module SqlText {

  predicate IsDigit(c: char) {
    '0' <= c <= '9'
  }

  /** JavaScript's white space. */
  predicate IsSpace(c: char) {
    c == ' ' || '\t' <= c <= '\r' || c == '\U{A0}' || c == '\U{1680}' || '\U{2000}' <= c <= '\U{200A}' ||
    c == '\U{2028}' || c == '\U{2029}' || c == '\U{202F}' || c == '\U{205F}' || c == '\U{3000}' || c == '\U{FEFF}'
  }

  function Digit(d: nat): (c: char)
    requires d < 10
    ensures IsDigit(c)
  {
    "0123456789"[d]
  }

  function DigitValue(c: char): (d: nat)
    requires IsDigit(c)
    ensures d < 10
  {
    c as int - '0' as int
  }

  /** The decimal numeral of a number. */
  function Decimal(n: nat): (s: string)
    ensures |s| > 0
    ensures forall i :: 0 <= i < |s| ==> IsDigit(s[i])
  {
    if n < 10 then [Digit(n)] else Decimal(n / 10) + [Digit(n % 10)]
  }

  /** The number a numeral denotes. */
  function Number(s: string): nat
    requires forall i :: 0 <= i < |s| ==> IsDigit(s[i])
  {
    if |s| == 0 then 0 else 10 * Number(s[..|s| - 1]) + DigitValue(s[|s| - 1])
  }

  lemma {:induction false} NumberOfDecimal(n: nat)
    ensures Number(Decimal(n)) == n
  {
    if n < 10 {
      assert Decimal(n)[..0] == "";
    } else {
      NumberOfDecimal(n / 10);
      assert Decimal(n)[..|Decimal(n)| - 1] == Decimal(n / 10);
    }
  }

  lemma DecimalInjective(m: nat, n: nat)
    requires Decimal(m) == Decimal(n)
    ensures m == n
  {
    NumberOfDecimal(m);
    NumberOfDecimal(n);
  }

  /**
   * Two runs of digits, each ended by a non-digit, that open the same text are
   * the same run: `$1` never matches inside `$10`.
   */
  lemma DigitRunsAgree(a: string, b: string, x: string, y: string)
    requires forall i :: 0 <= i < |a| ==> IsDigit(a[i])
    requires forall i :: 0 <= i < |b| ==> IsDigit(b[i])
    requires |x| > 0 && !IsDigit(x[0]) && (|y| > 0 ==> !IsDigit(y[0]))
    requires a + x <= b + y
    ensures a == b
  {
    var t, u := a + x, b + y;
    assert forall i :: 0 <= i < |t| ==> t[i] == u[i];
    assert !IsDigit(t[|a|]) && forall i :: 0 <= i < |a| ==> IsDigit(t[i]);
    assert (|b| < |u| ==> !IsDigit(u[|b|])) && forall i :: 0 <= i < |b| ==> IsDigit(u[i]);
    assert a == t[..|a|] == u[..|b|] == b;
  }

  // ---------------------------------------------------------------- pieces

  /**
   * A stretch of SQL text: literal text, a numbered parameter `$n`, or one of
   * the two private marks that cursor pagination rewrites.
   */
  datatype Piece =
    | Lit(text: string)
    | Param(n: nat)
    | CursorMark(i: nat)
    | FinalMark(k: nat)

  function PieceText(p: Piece): string {
    match p
    case Lit(t) => t
    case Param(n) => "$" + Decimal(n)
    case CursorMark(i) => "$__cursor_" + (Decimal(i) + "__")
    case FinalMark(k) => "$__cursor_final_" + (Decimal(k) + "__")
  }

  function Render(ps: seq<Piece>): string {
    if |ps| == 0 then "" else PieceText(ps[0]) + Render(ps[1..])
  }

  lemma RenderCons(p: Piece, ps: seq<Piece>)
    ensures Render([p] + ps) == PieceText(p) + Render(ps)
  {
    assert ([p] + ps)[1..] == ps;
  }

  lemma {:induction false} RenderConcat(ps: seq<Piece>, qs: seq<Piece>)
    ensures Render(ps + qs) == Render(ps) + Render(qs)
  {
    if ps == [] {
      assert ps + qs == qs;
    } else {
      calc {
        Render(ps + qs);
        { assert ps + qs == [ps[0]] + (ps[1..] + qs); RenderCons(ps[0], ps[1..] + qs); }
        PieceText(ps[0]) + Render(ps[1..] + qs);
        { RenderConcat(ps[1..], qs); }
        PieceText(ps[0]) + (Render(ps[1..]) + Render(qs));
        { Assoc(PieceText(ps[0]), Render(ps[1..]), Render(qs)); }
        PieceText(ps[0]) + Render(ps[1..]) + Render(qs);
      }
    }
  }

  lemma Assoc<T>(a: seq<T>, b: seq<T>, c: seq<T>)
    ensures a + (b + c) == (a + b) + c
  {
  }

  lemma Assoc4<T>(a: seq<T>, b: seq<T>, c: seq<T>, d: seq<T>)
    ensures a + b + c + d == a + (b + (c + d))
  {
    Assoc(a + b, c, d);
    Assoc(a, b, c + d);
  }

  lemma Assoc6<T>(a: seq<T>, b: seq<T>, c: seq<T>, d: seq<T>, e: seq<T>, f: seq<T>)
    ensures a + b + c + d + e + f == a + (b + (c + (d + (e + f))))
  {
    Assoc4(a + b + c, d, e, f);
    Assoc4(a, b, c, d + (e + f));
  }

  /** Literal text that cannot be taken for a placeholder. */
  predicate Plain(t: string) {
    '$' !in t
  }

  /** The text does not open with a digit. */
  predicate NoDigitFirst(t: string) {
    |t| > 0 ==> !IsDigit(t[0])
  }

  /** Text in which no `$` stands directly in front of a digit, so that it names no parameter. */
  predicate NoParam(t: string) {
    forall i :: 0 <= i < |t| - 1 && t[i] == '$' ==> !IsDigit(t[i + 1])
  }

  /** The same wherever the text goes on. */
  predicate Tame(t: string) {
    NoParam(t) && (|t| > 0 ==> t[|t| - 1] != '$')
  }

  lemma NoParamConcat(a: string, b: string)
    requires NoParam(a) && NoParam(b) && (Tame(a) || NoDigitFirst(b))
    ensures NoParam(a + b)
  {
    var t := a + b;
    forall i | 0 <= i < |t| - 1 && t[i] == '$' ensures !IsDigit(t[i + 1]) {
      if i >= |a| {
        assert b[i - |a|] == '$' && b[i + 1 - |a|] == t[i + 1];
      }
    }
  }

  lemma NoParamTail(s: string)
    requires NoParam(s) && |s| > 0
    ensures NoParam(s[1..])
  {
    var t := s[1..];
    forall i | 0 <= i < |t| - 1 && t[i] == '$' ensures !IsDigit(t[i + 1]) {
      assert s[i + 1] == '$' && s[i + 1 + 1] == t[i + 1];
    }
  }

  lemma TameConcat(a: string, b: string)
    requires Tame(a) && Tame(b)
    ensures Tame(a + b)
  {
    NoParamConcat(a, b);
  }

  predicate Clean(ps: seq<Piece>) {
    forall p :: p in ps && p.Lit? ==> Plain(p.text)
  }

  // ------------------------------------------------------------- joining

  function Join(ts: seq<string>, sep: string): string {
    if |ts| == 0 then ""
    else if |ts| == 1 then ts[0]
    else ts[0] + (sep + Join(ts[1..], sep))
  }

  function JoinPieces(pss: seq<seq<Piece>>, sep: string): seq<Piece> {
    if |pss| == 0 then []
    else if |pss| == 1 then pss[0]
    else pss[0] + ([Lit(sep)] + JoinPieces(pss[1..], sep))
  }

  function RenderEach(pss: seq<seq<Piece>>): (ts: seq<string>)
    ensures |ts| == |pss| && forall i :: 0 <= i < |pss| ==> ts[i] == Render(pss[i])
  {
    seq(|pss|, i requires 0 <= i < |pss| => Render(pss[i]))
  }

  lemma {:induction false} RenderJoin(pss: seq<seq<Piece>>, sep: string)
    ensures Render(JoinPieces(pss, sep)) == Join(RenderEach(pss), sep)
  {
    if |pss| > 1 {
      RenderJoin(pss[1..], sep);
      assert RenderEach(pss)[1..] == RenderEach(pss[1..]);
      RenderConcat(pss[0], [Lit(sep)] + JoinPieces(pss[1..], sep));
      RenderConcat([Lit(sep)], JoinPieces(pss[1..], sep));
      RenderOne(Lit(sep));
    }
  }

  lemma RenderOne(p: Piece)
    ensures Render([p]) == PieceText(p)
  {
    assert Render([p][1..]) == "";
    assert Render([p]) == PieceText(p) + "";
  }

  // ---------------------------------------------------- global replacement

  /**
   * JavaScript's `text.replace(/pat/g, f)` for a fixed pattern: the k-th match,
   * counted from k on, becomes `repl(k)`; matching resumes after each match.
   */
  function Replace(text: string, pat: string, repl: nat -> string, k: nat): string
    requires |pat| > 0
    decreases |text|
  {
    if |text| == 0 then ""
    else if pat <= text then repl(k) + Replace(text[|pat|..], pat, repl, k + 1)
    else [text[0]] + Replace(text[1..], pat, repl, k)
  }

  /** How many matches that replacement finds. */
  function Matches(text: string, pat: string): nat
    requires |pat| > 0
    decreases |text|
  {
    if |text| == 0 then 0
    else if pat <= text then 1 + Matches(text[|pat|..], pat)
    else Matches(text[1..], pat)
  }

  /** The same replacement on pieces: the k-th piece equal to `mark` becomes `repl(k)`. */
  function ReplacePieces(ps: seq<Piece>, mark: Piece, repl: nat -> Piece, k: nat): seq<Piece> {
    if |ps| == 0 then []
    else if ps[0] == mark then [repl(k)] + ReplacePieces(ps[1..], mark, repl, k + 1)
    else [ps[0]] + ReplacePieces(ps[1..], mark, repl, k)
  }

  function Count(ps: seq<Piece>, mark: Piece): nat {
    if |ps| == 0 then 0 else (if ps[0] == mark then 1 else 0) + Count(ps[1..], mark)
  }

  lemma ReplacePiecesCons(p: Piece, ps: seq<Piece>, mark: Piece, repl: nat -> Piece, k: nat)
    ensures Count([p] + ps, mark) == (if p == mark then 1 else 0) + Count(ps, mark)
    ensures ReplacePieces([p] + ps, mark, repl, k)
         == if p == mark then [repl(k)] + ReplacePieces(ps, mark, repl, k + 1) else [p] + ReplacePieces(ps, mark, repl, k)
  {
    assert ([p] + ps)[1..] == ps;
  }

  lemma {:induction false} ReplacePiecesConcat(ps: seq<Piece>, qs: seq<Piece>, mark: Piece, repl: nat -> Piece, k: nat)
    ensures Count(ps + qs, mark) == Count(ps, mark) + Count(qs, mark)
    ensures ReplacePieces(ps + qs, mark, repl, k)
         == ReplacePieces(ps, mark, repl, k) + ReplacePieces(qs, mark, repl, k + Count(ps, mark))
  {
    if ps == [] {
      assert ps + qs == qs;
    } else {
      var p, k' := ps[0], if ps[0] == mark then k + 1 else k;
      var head := [if p == mark then repl(k) else p];
      assert ps + qs == [p] + (ps[1..] + qs);
      ReplacePiecesCons(p, ps[1..] + qs, mark, repl, k);
      ReplacePiecesConcat(ps[1..], qs, mark, repl, k');
      Assoc(head, ReplacePieces(ps[1..], mark, repl, k'), ReplacePieces(qs, mark, repl, k + Count(ps, mark)));
    }
  }

  /** Text in which no match starts is copied. */
  lemma {:induction false} ReplaceSkips(w: string, rest: string, pat: string, repl: nat -> string, k: nat)
    requires |pat| > 0
    requires forall i :: 0 <= i < |w| ==> !(pat <= w[i..] + rest)
    ensures Replace(w + rest, pat, repl, k) == w + Replace(rest, pat, repl, k)
    ensures Matches(w + rest, pat) == Matches(rest, pat)
  {
    if |w| == 0 {
      assert w + rest == rest;
    } else {
      assert w[0..] == w;
      assert (w + rest)[1..] == w[1..] + rest;
      forall i | 0 <= i < |w| - 1 ensures !(pat <= w[1..][i..] + rest) {
        assert w[1..][i..] == w[i + 1..];
      }
      ReplaceSkips(w[1..], rest, pat, repl, k);
      assert [w[0]] + (w[1..] + Replace(rest, pat, repl, k)) == w + Replace(rest, pat, repl, k);
    }
  }

  predicate IsMark(p: Piece) {
    p.CursorMark? || p.FinalMark?
  }

  /** Only the mark itself opens with the text of a mark: `$__cursor_1__` never opens `$__cursor_10__`. */
  lemma MarkMatchesItself(mark: Piece, p: Piece, rest: string)
    requires IsMark(mark) && !p.Lit?
    ensures PieceText(mark) <= PieceText(p) + rest ==> p == mark
  {
    match p {
      case Param(n) => ParamIsNoMark(mark, n, rest);
      case CursorMark(j) =>
        if PieceText(mark) <= PieceText(p) + rest { CursorMarkMatches(mark, j, rest); }
      case FinalMark(j) =>
        if PieceText(mark) <= PieceText(p) + rest { FinalMarkMatches(mark, j, rest); }
    }
  }

  lemma ParamIsNoMark(mark: Piece, n: nat, rest: string)
    requires IsMark(mark)
    ensures !(PieceText(mark) <= PieceText(Param(n)) + rest)
  {
    hide Decimal;
    assert PieceText(mark)[1] == '_' && (PieceText(Param(n)) + rest)[1] == Decimal(n)[0];
  }

  lemma CursorMarkMatches(mark: Piece, j: nat, rest: string)
    requires IsMark(mark) && PieceText(mark) <= PieceText(CursorMark(j)) + rest
    ensures mark == CursorMark(j)
  {
    var t := PieceText(CursorMark(j)) + rest;
    assert t[10] == Decimal(j)[0] && PieceText(mark)[10] == t[10];
    assert mark.CursorMark?;
    assert t == "$__cursor_" + (Decimal(j) + ("__" + rest));
    assert Decimal(mark.i) + "__" <= Decimal(j) + ("__" + rest) by {
      assert PieceText(mark)[10..] <= t[10..];
    }
    DigitRunsAgree(Decimal(mark.i), Decimal(j), "__", "__" + rest);
    DecimalInjective(mark.i, j);
  }

  lemma FinalMarkMatches(mark: Piece, j: nat, rest: string)
    requires IsMark(mark) && PieceText(mark) <= PieceText(FinalMark(j)) + rest
    ensures mark == FinalMark(j)
  {
    var t := PieceText(FinalMark(j)) + rest;
    assert t == "$__cursor_final_" + (Decimal(j) + ("__" + rest));
    assert t[10] == 'f' && PieceText(mark)[10] == t[10];
    assert mark.FinalMark?;
    assert Decimal(mark.k) + "__" <= Decimal(j) + ("__" + rest) by {
      assert PieceText(mark)[16..] <= t[16..];
    }
    DigitRunsAgree(Decimal(mark.k), Decimal(j), "__", "__" + rest);
    DecimalInjective(mark.k, j);
  }

  lemma PieceTextShape(p: Piece, i: nat)
    requires !p.Lit? && i < |PieceText(p)|
    ensures PieceText(p)[i] == '$' <==> i == 0
  {
    match p {
      case Param(n) =>
        if i > 0 { assert PieceText(p)[i] == Decimal(n)[i - 1]; }
      case CursorMark(j) =>
        if 10 <= i < 10 + |Decimal(j)| { assert PieceText(p)[i] == Decimal(j)[i - 10]; }
      case FinalMark(j) =>
        if 16 <= i < 16 + |Decimal(j)| { assert PieceText(p)[i] == Decimal(j)[i - 16]; }
    }
  }

  /** A piece other than the mark holds no match, whatever follows it. */
  lemma NoMatchInside(mark: Piece, p: Piece, rest: string, i: nat)
    requires IsMark(mark) && p != mark && (p.Lit? ==> Plain(p.text))
    requires i < |PieceText(p)|
    ensures !(PieceText(mark) <= PieceText(p)[i..] + rest)
  {
    assert (PieceText(p)[i..] + rest)[0] == PieceText(p)[i];
    if p.Lit? {
      assert PieceText(p)[i] in p.text;
    } else {
      PieceTextShape(p, i);
      if i == 0 {
        assert PieceText(p)[i..] == PieceText(p);
        MarkMatchesItself(mark, p, rest);
      }
    }
  }

  /** Replacing a mark in the text is replacing it in the pieces. */
  lemma {:induction false} ReplaceMark(ps: seq<Piece>, mark: Piece, repl: nat -> Piece, texts: nat -> string, k: nat)
    requires IsMark(mark) && Clean(ps)
    requires forall j :: texts(j) == PieceText(repl(j))
    ensures Replace(Render(ps), PieceText(mark), texts, k) == Render(ReplacePieces(ps, mark, repl, k))
    ensures Matches(Render(ps), PieceText(mark)) == Count(ps, mark)
  {
    if |ps| > 0 {
      var p, rest := ps[0], Render(ps[1..]);
      var pat := PieceText(mark);
      if p == mark {
        ReplaceMark(ps[1..], mark, repl, texts, k + 1);
        assert Render(ps)[|pat|..] == rest;
        assert pat <= Render(ps);
      } else {
        ReplaceMark(ps[1..], mark, repl, texts, k);
        forall i | 0 <= i < |PieceText(p)| ensures !(pat <= PieceText(p)[i..] + rest) {
          NoMatchInside(mark, p, rest, i);
        }
        ReplaceSkips(PieceText(p), rest, pat, texts, k);
      }
    }
  }

  // ---------------------------------------------------- parameter numbers

  /** The parameter numbers of a text, read from left to right. */
  function Numbers(ps: seq<Piece>): seq<nat> {
    if |ps| == 0 then [] else (if ps[0].Param? then [ps[0].n] else []) + Numbers(ps[1..])
  }

  lemma {:induction false} NumbersConcat(ps: seq<Piece>, qs: seq<Piece>)
    ensures Numbers(ps + qs) == Numbers(ps) + Numbers(qs)
  {
    if ps == [] {
      assert ps + qs == qs;
    } else {
      NumbersConcat(ps[1..], qs);
      assert ps + qs == [ps[0]] + (ps[1..] + qs);
      assert (ps + qs)[1..] == ps[1..] + qs;
      Assoc(if ps[0].Param? then [ps[0].n] else [], Numbers(ps[1..]), Numbers(qs));
    }
  }

  lemma NumbersOfJoin(pss: seq<seq<Piece>>, sep: string)
    requires |pss| > 1
    ensures Numbers(JoinPieces(pss, sep)) == Numbers(pss[0]) + Numbers(JoinPieces(pss[1..], sep))
  {
    var tail := JoinPieces(pss[1..], sep);
    NumbersConcat(pss[0], [Lit(sep)] + tail);
    assert ([Lit(sep)] + tail)[1..] == tail;
  }

  /** The parameters appear in order of their numbers, without gaps. */
  predicate LeftToRight(numbers: seq<nat>, offset: nat) {
    forall t :: 0 <= t < |numbers| ==> numbers[t] == offset + t
  }
}
