/**
 The `{token}` substitution of the report logger (`Logger.replaceVariables`).

 The logger binds three tokens, `name`, `total` and `precision`, to
 producers that read the timer when a line is formatted, not when the
 binding is made; `Bindings` is that reading. Each token is replaced with a
 literal replace-all, one token after another, in the order the bindings'
 `HashMap` visits them: `total`, `precision`, `name` (the bucket order of the
 three keys in a default-capacity map).
 */
module Templates {

  import opened Text
  import opened Decimal

  const Opener: char := '{'

  datatype Token = NameToken | TotalToken | PrecisionToken

  /** What the three producers return at format time. */
  datatype Bindings = Bindings(name: string, total: int, precision: string)

  function TokenText(k: Token): (s: string)
    ensures |s| > 2 && s[0] == Opener && Opener !in s[1..]
  {
    match k
    case NameToken => "{name}"
    case TotalToken => "{total}"
    case PrecisionToken => "{precision}"
  }

  function Value(b: Bindings, k: Token): string {
    match k
    case NameToken => b.name
    case TotalToken => Dec(b.total)
    case PrecisionToken => b.precision
  }

  /**
   `Logger.replaceVariables`: the `total` token, then `precision`, then
   `name`, each replaced everywhere in the text produced so far. A text
   without `{` holds no token and comes back unchanged.
   */
  function ReplaceVariables(text: string, b: Bindings): (r: string)
    ensures Opener !in text ==> r == text
  {
    var t1 := ReplaceAll(text, TokenText(TotalToken), Value(b, TotalToken));
    var t2 := ReplaceAll(t1, TokenText(PrecisionToken), Value(b, PrecisionToken));
    var t3 := ReplaceAll(t2, TokenText(NameToken), Value(b, NameToken));
    if Opener in text then t3
    else
      assert text + "" == text;
      ReplaceAllSkips(text, "", TokenText(TotalToken), Value(b, TotalToken));
      ReplaceAllSkips(text, "", TokenText(PrecisionToken), Value(b, PrecisionToken));
      ReplaceAllSkips(text, "", TokenText(NameToken), Value(b, NameToken));
      t3
  }

  // ---------------------------------------------------------------------------
  // An independent reading of a template: literal text and tokens
  // ---------------------------------------------------------------------------

  datatype Piece = Lit(text: string) | Var(token: Token)

  /** The text of a template, tokens written as `{token}`. */
  function Source(t: seq<Piece>): string {
    if |t| == 0 then ""
    else
      (match t[0] case Lit(s) => s case Var(k) => TokenText(k)) + Source(t[1..])
  }

  /** The text a reader expects: every token replaced by its value, literals kept. */
  function Expand(t: seq<Piece>, b: Bindings): string {
    if |t| == 0 then ""
    else
      (match t[0] case Lit(s) => s case Var(k) => Value(b, k)) + Expand(t[1..], b)
  }

  /** Literal text holds no `{`, so every `{` in the source opens a token. */
  predicate PlainLiterals(t: seq<Piece>) {
    forall i :: 0 <= i < |t| ==> t[i].Lit? ==> Opener !in t[i].text
  }

  /** The template after one token has been replaced by the literal `v`. */
  function Resolve(t: seq<Piece>, k: Token, v: string): (r: seq<Piece>)
    ensures |r| == |t|
    ensures Opener !in v && PlainLiterals(t) ==> PlainLiterals(r)
  {
    if |t| == 0 then []
    else [if t[0] == Var(k) then Lit(v) else t[0]] + Resolve(t[1..], k, v)
  }

  /** The first letters of the three token names differ. */
  lemma TokensDifferEarly(k: Token, k': Token)
    requires k != k'
    ensures TokenText(k)[1] != TokenText(k')[1]
  {
  }

  /** One replace-all pass turns exactly the occurrences of one token into its value. */
  lemma {:induction false} ReplacePass(t: seq<Piece>, k: Token, v: string)
    requires PlainLiterals(t)
    ensures ReplaceAll(Source(t), TokenText(k), v) == Source(Resolve(t, k, v))
    decreases |t|
  {
    if |t| > 0 {
      var pat := TokenText(k);
      var rest := Source(t[1..]);
      assert PlainLiterals(t[1..]) by {
        forall i | 0 <= i < |t[1..]| && t[1..][i].Lit? ensures Opener !in t[1..][i].text {
          assert t[1..][i] == t[i + 1];
        }
      }
      ReplacePass(t[1..], k, v);
      match t[0]
      case Lit(s) =>
        assert Opener !in s;
        ReplaceAllSkips(s, rest, pat, v);
      case Var(k') =>
        if k' == k {
          ReplaceAllHit(pat, rest, v);
        } else {
          TokensDifferEarly(k', k);
          ReplaceAllMiss(TokenText(k'), rest, pat, v, 1);
        }
    }
  }

  /** The template after the three passes, in the order `ReplaceVariables` makes them. */
  function ResolveAll3(t: seq<Piece>, b: Bindings): (r: seq<Piece>)
    ensures |r| == |t|
  {
    Resolve(Resolve(Resolve(t, TotalToken, Value(b, TotalToken)), PrecisionToken, Value(b, PrecisionToken)),
            NameToken, Value(b, NameToken))
  }

  /** A piece after the three passes: a token becomes the literal of its value. */
  function Resolved(p: Piece, b: Bindings): Piece {
    match p
    case Lit(_) => p
    case Var(k) => Lit(Value(b, k))
  }

  /** The passes work piece by piece. */
  lemma ResolveAll3Cons(t: seq<Piece>, b: Bindings)
    requires |t| > 0
    ensures ResolveAll3(t, b) == [Resolved(t[0], b)] + ResolveAll3(t[1..], b)
  {
    var v1, v2, v3 := Value(b, TotalToken), Value(b, PrecisionToken), Value(b, NameToken);
    var r1 := Resolve(t, TotalToken, v1);
    var r2 := Resolve(r1, PrecisionToken, v2);
    assert r1[1..] == Resolve(t[1..], TotalToken, v1);
    assert r2[1..] == Resolve(r1[1..], PrecisionToken, v2);
  }

  /** Resolving all three tokens leaves the expanded text. */
  lemma {:induction false} ResolveAll(t: seq<Piece>, b: Bindings)
    ensures Source(ResolveAll3(t, b)) == Expand(t, b)
    decreases |t|
  {
    if |t| > 0 {
      var r := ResolveAll3(t, b);
      ResolveAll3Cons(t, b);
      assert r[1..] == ResolveAll3(t[1..], b);
      ResolveAll(t[1..], b);
    }
  }

  /**
   Substitution replaces every token of a template by the value read at
   format time and leaves all literal text as it is, provided literal text
   holds no `{` and the precision label holds none (the name may hold
   anything: it is substituted last and never rescanned).
   */
  lemma ReplaceVariablesExpands(t: seq<Piece>, b: Bindings)
    requires PlainLiterals(t)
    requires Opener !in b.precision
    ensures ReplaceVariables(Source(t), b) == Expand(t, b)
  {
    var v1 := Value(b, TotalToken);
    var v2 := Value(b, PrecisionToken);
    var v3 := Value(b, NameToken);
    DecHasNoSpecial(b.total);
    var t1 := Resolve(t, TotalToken, v1);
    var t2 := Resolve(t1, PrecisionToken, v2);
    ReplacePass(t, TotalToken, v1);
    ReplacePass(t1, PrecisionToken, v2);
    ReplacePass(t2, NameToken, v3);
    ResolveAll(t, b);
  }
}
