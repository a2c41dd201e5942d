/** The lexer of the expression evaluator and the evaluator on text
    (crates/netsnmp-agent/src/disman/expr.rs). */
module Lexing {
  import opened Values
  import opened Outcomes
  import opened Expressions

  predicate IsDigit(c: char) {
    '0' <= c <= '9'
  }

  predicate IsBlank(c: char) {
    c == ' ' || c == '\t' || c == '\n' || c == '\r'
  }

  function OperatorOf(c: char): Option<Operator> {
    match c
    case '+' => Some(Plus)
    case '-' => Some(Minus)
    case '*' => Some(Times)
    case '/' => Some(Over)
    case _ => None
  }

  /** What ends a `$` reference; unlike blanks this includes the form feed. */
  predicate EndsReference(c: char) {
    IsBlank(c) || c == '\U{000C}' || OperatorOf(c).Some? || c == '(' || c == ')'
  }

  function ReferenceLength(s: string): (n: nat)
    ensures n <= |s|
  {
    if s == "" || EndsReference(s[0]) then 0 else 1 + ReferenceLength(s[1..])
  }

  /** Digits with at most one dot. */
  function NumberLength(s: string, seenDot: bool): (n: nat)
    ensures n <= |s|
  {
    if s == "" then 0
    else if IsDigit(s[0]) then 1 + NumberLength(s[1..], seenDot)
    else if s[0] == '.' && !seenDot then 1 + NumberLength(s[1..], true)
    else 0
  }

  function Prepend<T>(out: seq<T>, r: Result<seq<T>>): Result<seq<T>> {
    match r case Err(e) => Err(e) case Ok(ts) => Ok(out + ts)
  }

  /** What the front of a non-empty text gives: at most one token, and how many
      characters it takes. */
  function LexStep<F>(env: Env<F>, s: string): (r: Result<(seq<Token<F>>, nat)>)
    requires s != ""
    ensures r.Ok? ==> 0 < r.value.1 <= |s|
  {
    var c := s[0];
    if IsBlank(c) then Ok(([], 1))
    else if OperatorOf(c).Some? then Ok(([Op(OperatorOf(c).value)], 1))
    else if c == '(' then Ok(([LParen], 1))
    else if c == ')' then Ok(([RParen], 1))
    else if c == '$' then
      var n := ReferenceLength(s[1..]);
      if n == 0 then Err(BadReference) else Ok(([Reference(s[1..1 + n])], 1 + n))
    else if IsDigit(c) || c == '.' then
      var n := NumberLength(s, false);
      match env.number(s[..n])
      case None => Err(BadNumber(s[..n]))
      case Some(v) => Ok(([Number(v)], n))
    else Err(UnexpectedChar(c))
  }

  /** The tokens of a text, or the first lexical error. */
  function Lex<F>(env: Env<F>, s: string): Result<seq<Token<F>>>
    decreases |s|
  {
    if s == "" then Ok([])
    else
      match LexStep(env, s)
      case Err(e) => Err(e)
      case Ok((ts, n)) => Prepend(ts, Lex(env, s[n..]))
  }

  lemma {:induction false} PrependTwice<T>(a: seq<T>, b: seq<T>, r: Result<seq<T>>)
    ensures Prepend(a, Prepend(b, r)) == Prepend(a + b, r)
  {
    if r.Ok? {
      assert a + (b + r.value) == a + b + r.value;
    }
  }

  method ScanReference(input: string, start: nat) returns (end: nat)
    requires start <= |input|
    ensures end == start + ReferenceLength(input[start..])
  {
    end := start;
    while end < |input|
      invariant start <= end <= |input|
      invariant start + ReferenceLength(input[start..]) == end + ReferenceLength(input[end..])
    {
      if EndsReference(input[end]) {
        return;
      }
      assert input[end..][1..] == input[end + 1..];
      end := end + 1;
    }
  }

  method ScanNumber(input: string, start: nat) returns (end: nat)
    requires start <= |input|
    ensures end == start + NumberLength(input[start..], false)
  {
    end := start;
    var seenDot := false;
    while end < |input|
      invariant start <= end <= |input|
      invariant start + NumberLength(input[start..], false) == end + NumberLength(input[end..], seenDot)
    {
      assert input[end..][1..] == input[end + 1..];
      if IsDigit(input[end]) {
        end := end + 1;
      } else if input[end] == '.' && !seenDot {
        seenDot := true;
        end := end + 1;
      } else {
        return;
      }
    }
  }

  /** One round of the lexer loop. */
  method RunStep<F>(env: Env<F>, input: string, i: nat) returns (r: Result<(seq<Token<F>>, nat)>)
    requires i < |input|
    ensures r == LexStep(env, input[i..])
  {
    var c := input[i];
    if IsBlank(c) {
      return Ok(([], 1));
    } else if OperatorOf(c).Some? {
      return Ok(([Op(OperatorOf(c).value)], 1));
    } else if c == '(' {
      return Ok(([LParen], 1));
    } else if c == ')' {
      return Ok(([RParen], 1));
    } else if c == '$' {
      var end := ScanReference(input, i + 1);
      assert input[i..][1..] == input[i + 1..];
      if end == i + 1 {
        return Err(BadReference);
      }
      assert input[i..][1..end - i] == input[i + 1..end];
      return Ok(([Reference(input[i + 1..end])], end - i));
    } else if IsDigit(c) || c == '.' {
      var end := ScanNumber(input, i);
      assert input[i..][..end - i] == input[i..end];
      var n := env.number(input[i..end]);
      return if n.None? then Err(BadNumber(input[i..end])) else Ok(([Number(n.value)], end - i));
    } else {
      return Err(UnexpectedChar(c));
    }
  }

  /** A text as the lexer sees it: the bytes of its UTF-8 form, each taken for the
      character of that code. */
  function AsRead(utf8: seq<byte>): (s: string)
    ensures |s| == |utf8| && forall i :: 0 <= i < |s| ==> s[i] as int == utf8[i]
  {
    seq(|utf8|, i requires 0 <= i < |utf8| => utf8[i] as char)
  }

  /** The lexer loop over an index into the bytes. */
  method RunLex<F>(env: Env<F>, utf8: seq<byte>) returns (r: Result<seq<Token<F>>>)
    ensures r == Lex(env, AsRead(utf8))
  {
    var input := AsRead(utf8);
    var out, i := [], 0;
    PrependNothing(Lex(env, input));
    assert input[0..] == input;
    while i < |input|
      invariant 0 <= i <= |input|
      invariant Lex(env, input) == Prepend(out, Lex(env, input[i..]))
      decreases |input| - i
    {
      var round := RunRound(env, input, i, out);
      if round.Err? {
        return Err(round.error);
      }
      out, i := round.value.0, round.value.1;
    }
    assert input[i..] == [] && out + [] == out;
    r := Ok(out);
  }

  /** One step, and the tokens so far. */
  method RunRound<F>(env: Env<F>, input: string, i: nat, out: seq<Token<F>>) returns (r: Result<(seq<Token<F>>, nat)>)
    requires i < |input|
    ensures Carries(env, input, i, out, r)
  {
    var step := RunStep(env, input, i);
    LexRound(env, input, i, out, step);
    if step.Err? {
      return Err(step.error);
    }
    r := Ok((out + step.value.0, i + step.value.1));
  }

  /** The round ends with the text's own error, or carries on to the same
      result. */
  ghost predicate Carries<F>(env: Env<F>, input: string, i: nat, out: seq<Token<F>>, r: Result<(seq<Token<F>>, nat)>)
    requires i < |input|
  {
    match r
    case Err(e) => Prepend(out, Lex(env, input[i..])) == Err(e)
    case Ok((later, j)) => i < j <= |input| && Prepend(out, Lex(env, input[i..])) == Prepend(later, Lex(env, input[j..]))
  }

  lemma {:induction false} LexRound<F>(env: Env<F>, input: string, i: nat, out: seq<Token<F>>, step: Result<(seq<Token<F>>, nat)>)
    requires i < |input| && step == LexStep(env, input[i..])
    ensures step.Err? ==> Carries(env, input, i, out, Err(step.error))
    ensures step.Ok? ==> Carries(env, input, i, out, Ok((out + step.value.0, i + step.value.1)))
  {
    if step.Ok? {
      var (tokens, n) := step.value;
      assert input[i..][n..] == input[i + n..];
      PrependTwice(out, tokens, Lex(env, input[i + n..]));
    }
  }

  lemma {:induction false} PrependNothing<T>(r: Result<seq<T>>)
    ensures Prepend([], r) == r
  {
    if r.Ok? {
      assert [] + r.value == r.value;
    }
  }

  /** What a text evaluates to. */
  function Evaluated<F>(env: Env<F>, text: string): Result<F> {
    match Lex(env, text)
    case Err(e) => Err(e)
    case Ok(ts) => Evaluate(env, ts)
  }

  /** `evaluate_expression`. */
  method EvaluateText<F>(env: Env<F>, utf8: seq<byte>) returns (r: Result<F>)
    ensures r == Evaluated(env, AsRead(utf8))
  {
    var tokens := RunLex(env, utf8);
    if tokens.Err? {
      return Err(tokens.error);
    }
    var parsed := RunExpr(env, tokens.value, 0);
    if parsed.Err? {
      return Err(parsed.error);
    }
    var (v, pos) := parsed.value;
    r := if pos != |tokens.value| then Err(UnbalancedParens) else Ok(v);
  }

  // ----- Character by character -----

  /** What each character starts, at the front of a text. */
  lemma {:induction false} StepByCharacter<F>(env: Env<F>, s: string)
    requires s != ""
    ensures s[0] == ' ' || s[0] == '\t' || s[0] == '\n' || s[0] == '\r' ==> LexStep(env, s) == Ok(([], 1))
    ensures s[0] == '+' ==> LexStep(env, s) == Ok(([Op(Plus)], 1))
    ensures s[0] == '-' ==> LexStep(env, s) == Ok(([Op(Minus)], 1))
    ensures s[0] == '*' ==> LexStep(env, s) == Ok(([Op(Times)], 1))
    ensures s[0] == '/' ==> LexStep(env, s) == Ok(([Op(Over)], 1))
    ensures s[0] == '(' ==> LexStep(env, s) == Ok(([LParen], 1))
    ensures s[0] == ')' ==> LexStep(env, s) == Ok(([RParen], 1))
    ensures !(s[0] in " \t\n\r+-*/()$.0123456789") ==> LexStep(env, s) == Err(UnexpectedChar(s[0]))
  {
  }

  /** n characters are a reference's: none of them a blank, a form feed, an
      operator or a parenthesis, and the one behind them is. */
  predicate ReferenceEnds(s: string, n: nat) {
    && n <= |s| && (forall i :: 0 <= i < n ==> !(s[i] in " \t\n\r\U{000C}+-*/()"))
    && (n < |s| ==> s[n] in " \t\n\r\U{000C}+-*/()")
  }

  lemma {:induction false} ReferenceLengthSpec(s: string)
    ensures ReferenceEnds(s, ReferenceLength(s))
  {
    if s != "" && !EndsReference(s[0]) {
      ReferenceLengthSpec(s[1..]);
      assert forall i :: 0 < i < |s| ==> s[i] == s[1..][i - 1];
    }
  }

  /** A `$` takes the characters of a reference, and needs one at least. */
  lemma {:induction false} DollarTakes<F>(env: Env<F>, s: string) returns (n: nat)
    requires s != "" && s[0] == '$'
    ensures ReferenceEnds(s[1..], n)
    ensures LexStep(env, s) == if n == 0 then Err(BadReference) else Ok(([Reference(s[1..1 + n])], 1 + n))
  {
    n := ReferenceLength(s[1..]);
    ReferenceLengthSpec(s[1..]);
  }

  function Dots(s: string): nat {
    if s == "" then 0 else (if s[0] == '.' then 1 else 0) + Dots(s[1..])
  }

  /** n characters are a number's: digits and at most `dots` dots, and the one
      behind them is neither a digit nor a dot that is still allowed. */
  predicate NumberEnds(s: string, dots: nat, n: nat) {
    && n <= |s| && (forall i :: 0 <= i < n ==> s[i] in ".0123456789") && Dots(s[..n]) <= dots
    && (n < |s| ==> !(s[n] in "0123456789") && (s[n] == '.' ==> Dots(s[..n]) == dots))
  }

  lemma NumberEndsCons(s: string, dots: nat, later: nat, n: nat)
    requires s != "" && s[0] in ".0123456789" && NumberEnds(s[1..], later, n)
    requires dots == later + if s[0] == '.' then 1 else 0
    ensures NumberEnds(s, dots, n + 1)
  {
    assert s[..n + 1] == [s[0]] + s[1..][..n];
    assert s[..n + 1][1..] == s[1..][..n];
    assert forall i :: 0 < i < |s| ==> s[i] == s[1..][i - 1];
  }

  lemma {:induction false} NumberLengthSpec(s: string, seenDot: bool)
    ensures NumberEnds(s, if seenDot then 0 else 1, NumberLength(s, seenDot))
    decreases |s|
  {
    if s != "" && (IsDigit(s[0]) || (s[0] == '.' && !seenDot)) {
      var later := seenDot || s[0] == '.';
      NumberLengthSpec(s[1..], later);
      NumberEndsCons(s, if seenDot then 0 else 1, if later then 0 else 1, NumberLength(s[1..], later));
    } else {
      assert s[..0] == "";
    }
  }

  /** A digit or a dot takes the longest number there. */
  lemma {:induction false} NumberTakes<F>(env: Env<F>, s: string) returns (n: nat)
    requires s != "" && s[0] in ".0123456789"
    ensures 0 < n && NumberEnds(s, 1, n)
    ensures LexStep(env, s)
         == if env.number(s[..n]).None? then Err(BadNumber(s[..n])) else Ok(([Number(env.number(s[..n]).value)], n))
  {
    n := NumberLength(s, false);
    NumberLengthSpec(s, false);
  }

  // ----- Spelling tokens out -----

  datatype Lexeme = Numeral(text: string) | Dollar(text: string) | Sign(op: Operator) | Open | Close

  function SignChar(op: Operator): char {
    match op case Plus => '+' case Minus => '-' case Times => '*' case Over => '/'
  }

  function Spell(l: Lexeme): string {
    match l
    case Numeral(text) => text
    case Dollar(text) => "$" + text
    case Sign(op) => [SignChar(op)]
    case Open => "("
    case Close => ")"
  }

  /** A numeral is digits with at most one dot; a reference has no blank,
      operator or parenthesis inside. */
  predicate WellSpelled(l: Lexeme) {
    match l
    case Numeral(text) => text != "" && NumberLength(text, false) == |text|
    case Dollar(text) => text != "" && ReferenceLength(text) == |text|
    case _ => true
  }

  /** The token of a lexeme. */
  function TokenOf<F>(env: Env<F>, l: Lexeme): Result<Token<F>> {
    match l
    case Numeral(text) =>
      (match env.number(text) case None => Err(BadNumber(text)) case Some(v) => Ok(Number(v)))
    case Dollar(text) => Ok(Reference(text))
    case Sign(op) => Ok(Op(op))
    case Open => Ok(LParen)
    case Close => Ok(RParen)
  }

  function TokensOf<F>(env: Env<F>, ls: seq<Lexeme>): Result<seq<Token<F>>> {
    if ls == [] then Ok([])
    else
      match TokenOf(env, ls[0])
      case Err(e) => Err(e)
      case Ok(t) => Prepend([t], TokensOf(env, ls[1..]))
  }

  /** The lexemes written out, each followed by a space. */
  function Spaced(ls: seq<Lexeme>): string {
    if ls == [] then "" else Spell(ls[0]) + " " + Spaced(ls[1..])
  }

  lemma {:induction false} NumberStopsAtSpace(text: string, rest: string, seenDot: bool)
    requires NumberLength(text, seenDot) == |text|
    ensures NumberLength(text + " " + rest, seenDot) == |text|
    decreases |text|
  {
    var s := text + " " + rest;
    if text == "" {
      assert s[0] == ' ';
    } else {
      assert s[1..] == text[1..] + " " + rest;
      NumberStopsAtSpace(text[1..], rest, seenDot || text[0] == '.');
    }
  }

  lemma {:induction false} ReferenceStopsAtSpace(text: string, rest: string)
    requires ReferenceLength(text) == |text|
    ensures ReferenceLength(text + " " + rest) == |text|
    decreases |text|
  {
    var s := text + " " + rest;
    if text == "" {
      assert s[0] == ' ';
    } else {
      assert s[1..] == text[1..] + " " + rest;
      ReferenceStopsAtSpace(text[1..], rest);
    }
  }

  lemma {:induction false} NumeralStep<F>(env: Env<F>, text: string, rest: string)
    requires WellSpelled(Numeral(text))
    ensures LexStep(env, text + " " + rest)
         == match TokenOf(env, Numeral(text)) case Err(e) => Err(e) case Ok(t) => Ok(([t], |text|))
  {
    var s := text + " " + rest;
    NumberStopsAtSpace(text, rest, false);
    assert s[0] == text[0] && s[..|text|] == text;
  }

  lemma {:induction false} DollarStep<F>(env: Env<F>, text: string, rest: string)
    requires WellSpelled(Dollar(text))
    ensures LexStep(env, "$" + text + " " + rest) == Ok(([Reference(text)], 1 + |text|))
  {
    var s := "$" + text + " " + rest;
    ReferenceStopsAtSpace(text, rest);
    assert s[0] == '$' && s[1..] == text + " " + rest;
    assert s[1..1 + |text|] == text;
  }

  /** A spelled lexeme is taken whole by one step. */
  lemma {:induction false} StepTakesLexeme<F>(env: Env<F>, l: Lexeme, rest: string)
    requires WellSpelled(l)
    ensures Spell(l) != ""
    ensures LexStep(env, Spell(l) + " " + rest)
         == match TokenOf(env, l) case Err(e) => Err(e) case Ok(t) => Ok(([t], |Spell(l)|))
  {
    if l.Numeral? {
      NumeralStep(env, l.text, rest);
    } else if l.Dollar? {
      DollarStep(env, l.text, rest);
    } else {
      assert (Spell(l) + " " + rest)[0] == Spell(l)[0];
    }
  }

  lemma {:induction false} LexOne<F>(env: Env<F>, l: Lexeme, rest: string)
    requires WellSpelled(l)
    ensures Lex(env, Spell(l) + " " + rest)
         == if TokenOf(env, l).Err? then Err(TokenOf(env, l).error) else Prepend([TokenOf(env, l).value], Lex(env, rest))
  {
    var s, tail := Spell(l) + " " + rest, " " + rest;
    StepTakesLexeme(env, l, rest);
    assert s[|Spell(l)|..] == tail;
    assert LexStep(env, tail) == Ok(([], 1)) && tail[1..] == rest;
    PrependNothing(Lex(env, rest));
  }

  /** Lexing undoes spelling: any list of well-spelled lexemes comes back as its
      tokens, or as the first literal that is not a number. */
  lemma {:induction false} LexUndoesSpelling<F>(env: Env<F>, ls: seq<Lexeme>)
    requires forall i :: 0 <= i < |ls| ==> WellSpelled(ls[i])
    ensures Lex(env, Spaced(ls)) == TokensOf(env, ls)
    decreases |ls|
  {
    if ls != [] {
      LexUndoesSpelling(env, ls[1..]);
      LexOne(env, ls[0], Spaced(ls[1..]));
    }
  }
}
