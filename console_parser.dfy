/** The console tokenizer (gpm_console_parser.c). The text is a C string;
    the model takes the characters before its terminating NUL and treats
    index |text| as the terminator. A scope machine reads the text from the
    left: digit runs, identifiers, quoted strings and single unknown
    characters become tokens, blanks are skipped, and the terminator
    becomes one end token. */
module ConsoleParser {
  import opened CTypes

  /** MAX_TOKEN_SIZE */
  const MaxTokenSize: nat := 80

  /** TOKEN_TYPE */
  datatype TokenType = TokInvalid | TokString | TokInt | TokIdentifier | TokEnd | TokBlank | TokUnknown

  /** The union `value` of a Token: the integer of an int token, the
      character of an unknown or end token, and for strings and identifiers
      a pointer to the token's own text. */
  datatype TokenValue = IntValue(integer: int) | CharValue(c: char) | TextValue

  /** Token: its type, the half-open range [start, end) of the input it
      covers, its (truncated) text and its value. */
  datatype Token = Token(kind: TokenType, start: nat, end: nat, text: string, value: TokenValue)

  /** The NUL character that ends a C string. */
  const Nul: char := '\0'

  /** isalpha in the C locale. */
  predicate IsAlpha(c: char)
  {
    'a' <= c <= 'z' || 'A' <= c <= 'Z'
  }

  /** isblank in the C locale. */
  predicate IsBlank(c: char)
  {
    c == ' ' || c == '\t'
  }

  /** The characters that continue a scope: digits for IN_INT, letters,
      digits and '_' for IN_IDENTIFIER, blanks for IN_BLANK. */
  datatype CharClass = Digits | IdentChars | Blanks

  predicate InClass(c: char, cls: CharClass)
  {
    match cls
    case Digits => IsDigit(c)
    case IdentChars => IsAlpha(c) || IsDigit(c) || c == '_'
    case Blanks => IsBlank(c)
  }

  /** A C string holds no NUL before its terminator. */
  predicate IsCString(text: string)
  {
    forall i :: 0 <= i < |text| ==> text[i] != Nul
  }

  /** The end of the run of `cls` characters that starts at p. */
  function SpanEnd(text: string, p: nat, cls: CharClass): (r: nat)
    requires p <= |text|
    ensures p <= r <= |text|
    ensures forall i :: p <= i < r ==> InClass(text[i], cls)
    ensures r == |text| || !InClass(text[r], cls)
    decreases |text| - p
  {
    if p < |text| && InClass(text[p], cls) then SpanEnd(text, p + 1, cls) else p
  }

  /** The closing quote of a string whose contents start at p: the first
      '"' not preceded by a backslash that escapes it; None when the text
      ends first. */
  function StringEnd(text: string, p: nat): (r: Option<nat>)
    requires p <= |text|
    ensures r.Some? ==> p <= r.value < |text| && text[r.value] == '"'
    ensures r.Some? ==> r.value == p || text[r.value - 1] != '\\'
    ensures r.Some? ==> forall i :: p <= i < r.value && text[i] == '"' ==> i > p && text[i - 1] == '\\'
    decreases |text| - p
  {
    if p == |text| then None
    else if text[p] == '"' then Some(p)
    else if text[p] == '\\' && p + 1 < |text| && text[p + 1] == '"' then StringEnd(text, p + 2)
    else StringEnd(text, p + 1)
  }

  /** A token's text: the covered characters, truncated to MAX_TOKEN_SIZE;
      the covered terminator of the end token adds nothing. */
  function TokenText(text: string, start: nat, end: nat): (s: string)
    requires start <= end
    ensures |s| <= MaxTokenSize
  {
    var stop := if end <= |text| then end else |text|;
    var slice := if start <= stop then text[start..stop] else [];
    if |slice| <= MaxTokenSize then slice else slice[..MaxTokenSize]
  }

  /** fill_token for the token kinds the parser creates. */
  function FillToken(text: string, kind: TokenType, start: nat, end: nat): (t: Token)
    requires start <= end <= |text| + 1
    requires kind == TokInt ==> end <= |text| && forall i :: start <= i < end ==> IsDigit(text[i])
    ensures t.kind == kind && t.start == start && t.end == end
  {
    var value :=
      match kind
      case TokInt => IntValue(DigitsValue(text[start..end]))
      case TokUnknown => CharValue(if start < |text| then text[start] else Nul)
      case TokEnd => CharValue(Nul)
      case _ => TextValue;
    Token(kind, start, end, TokenText(text, start, end), value)
  }

  /** What one round of the default scope does at position p: emit a
      token and continue at `next`, skip to `next`, emit the end token and
      stop, or fail. */
  datatype StepResult = Emit(t: Token, next: nat) | Skip(next: nat) | Finish(t: Token) | Fail

  /** One round of the default scope: the sub-scope chosen by the
      character at p, run to its end. */
  function Step(text: string, p: nat): (r: StepResult)
    requires p <= |text|
    ensures (r.Emit? || r.Skip?) ==> p < r.next <= |text|
    ensures r.Emit? ==> r.t.kind != TokEnd
    ensures r.Finish? ==> r.t.kind == TokEnd
  {
    if p == |text| then Finish(FillToken(text, TokEnd, |text|, |text| + 1))
    else
      var c := text[p];
      if IsDigit(c) then
        var q := SpanEnd(text, p, Digits);
        Emit(FillToken(text, TokInt, p, q), q)
      else if c == '"' then
        match StringEnd(text, p + 1)
        case None => Fail
        case Some(q) => Emit(FillToken(text, TokString, p + 1, q), q + 1)
      else if IsAlpha(c) || c == '_' then
        var q := SpanEnd(text, p, IdentChars);
        Emit(FillToken(text, TokIdentifier, p, q), q)
      else if IsBlank(c) then
        Skip(SpanEnd(text, p, Blanks))
      else
        Emit(FillToken(text, TokUnknown, p, p + 1), p + 1)
  }

  /** The tokens read in default scope from position p, in reading order,
      and whether the parse succeeds. There is at most one token per
      character read plus the end token, and a successful parse has at
      least that end token. */
  function Tokenize(text: string, p: nat): (r: (seq<Token>, bool))
    requires p <= |text|
    ensures |r.0| <= |text| - p + 1
    ensures r.1 ==> r.0 != []
    decreases |text| - p
  {
    match Step(text, p)
    case Emit(t, next) =>
      var rest := Tokenize(text, next);
      ([t] + rest.0, rest.1)
    case Skip(next) => Tokenize(text, next)
    case Finish(t) => ([t], true)
    case Fail => ([], false)
  }

  // ---------------------------------------------------------------------
  // What the tokens are

  /** The shape every token of a parse has, by kind. */
  predicate WellFormedToken(text: string, t: Token)
  {
    t.start <= t.end && t.text == TokenText(text, t.start, t.end) &&
    match t.kind
    case TokInt =>
      // a maximal run of digits, valued as atoi reads it
      t.start < t.end <= |text| && (forall i :: t.start <= i < t.end ==> IsDigit(text[i])) &&
      (t.end == |text| || !IsDigit(text[t.end])) &&
      (t.start == 0 || !IsDigit(text[t.start - 1])) &&
      t.value == IntValue(DigitsValue(text[t.start..t.end]))
    case TokIdentifier =>
      // a letter or '_' followed by a maximal run of letters, digits and '_'
      t.start < t.end <= |text| && (IsAlpha(text[t.start]) || text[t.start] == '_') &&
      (forall i :: t.start <= i < t.end ==> InClass(text[i], IdentChars)) &&
      (t.end == |text| || !InClass(text[t.end], IdentChars)) && t.value == TextValue
    case TokString =>
      // the contents between an opening quote and its closing quote
      0 < t.start <= t.end < |text| && text[t.start - 1] == '"' &&
      StringEnd(text, t.start) == Some(t.end) && t.value == TextValue
    case TokUnknown =>
      // one character of no other class
      t.end == t.start + 1 <= |text| && !IsDigit(text[t.start]) && !IsAlpha(text[t.start]) &&
      !IsBlank(text[t.start]) && text[t.start] != '"' && text[t.start] != '_' &&
      t.value == CharValue(text[t.start])
    case TokEnd =>
      t.start == |text| && t.end == |text| + 1 && t.text == [] && t.value == CharValue(Nul)
    case _ => false
  }

  /** Tokens appear in reading order without overlapping. */
  predicate Ordered(ts: seq<Token>)
  {
    forall i, j :: 0 <= i < j < |ts| ==> ts[i].end <= ts[j].start
  }

  /** A position where no digit run is split: an int token can start
      there only if it also starts a maximal run. */
  predicate Boundary(text: string, p: nat)
    requires p <= |text|
  {
    p == 0 || p == |text| || !IsDigit(text[p - 1]) || !IsDigit(text[p])
  }

  /** IN_INT: a digit run starting at a boundary is a well-formed int
      token and ends at a boundary. */
  lemma IntRound(text: string, p: nat)
    requires p < |text| && IsDigit(text[p]) && Boundary(text, p)
    ensures WellFormedToken(text, FillToken(text, TokInt, p, SpanEnd(text, p, Digits)))
    ensures Boundary(text, SpanEnd(text, p, Digits))
  {
  }

  /** IN_IDENTIFIER */
  lemma IdentifierRound(text: string, p: nat)
    requires p < |text| && (IsAlpha(text[p]) || text[p] == '_')
    ensures WellFormedToken(text, FillToken(text, TokIdentifier, p, SpanEnd(text, p, IdentChars)))
    ensures Boundary(text, SpanEnd(text, p, IdentChars))
  {
  }

  /** IN_STRING, closed at q. */
  lemma StringRound(text: string, p: nat, q: nat)
    requires p < |text| && text[p] == '"' && StringEnd(text, p + 1) == Some(q)
    ensures WellFormedToken(text, FillToken(text, TokString, p + 1, q))
    ensures Boundary(text, q + 1)
  {
  }

  /** IN_BLANK */
  lemma BlankRound(text: string, p: nat)
    requires p < |text| && IsBlank(text[p])
    ensures Boundary(text, SpanEnd(text, p, Blanks))
  {
  }

  /** A character of no other class. */
  lemma UnknownRound(text: string, p: nat)
    requires p < |text| && !IsDigit(text[p]) && text[p] != '"' && !IsAlpha(text[p]) && text[p] != '_'
    requires !IsBlank(text[p])
    ensures WellFormedToken(text, FillToken(text, TokUnknown, p, p + 1))
    ensures Boundary(text, p + 1)
  {
  }

  /** The terminator becomes the end token. */
  lemma EndRound(text: string)
    ensures WellFormedToken(text, FillToken(text, TokEnd, |text|, |text| + 1))
  {
  }

  /** The token of one round has its kind's shape, lies between p and
      `next`, and `next` is again a boundary. */
  lemma StepShape(text: string, p: nat)
    requires p <= |text| && Boundary(text, p)
    ensures Step(text, p).Emit? ==>
              WellFormedToken(text, Step(text, p).t) &&
              p <= Step(text, p).t.start && Step(text, p).t.end <= Step(text, p).next &&
              Boundary(text, Step(text, p).next)
    ensures Step(text, p).Skip? ==> Boundary(text, Step(text, p).next)
    ensures Step(text, p).Finish? ==> WellFormedToken(text, Step(text, p).t) && p <= Step(text, p).t.start
  {
    hide FillToken, WellFormedToken;
    if p == |text| {
      EndRound(text);
    } else {
      var c := text[p];
      if IsDigit(c) {
        IntRound(text, p);
      } else if c == '"' {
        match StringEnd(text, p + 1)
        case None =>
        case Some(q) => StringRound(text, p, q);
      } else if IsAlpha(c) || c == '_' {
        IdentifierRound(text, p);
      } else if IsBlank(c) {
        BlankRound(text, p);
      } else {
        UnknownRound(text, p);
      }
    }
  }

  lemma {:induction false} TokenizeShape(text: string, p: nat)
    requires p <= |text| && Boundary(text, p)
    ensures forall k :: 0 <= k < |Tokenize(text, p).0| ==> WellFormedToken(text, Tokenize(text, p).0[k])
    ensures forall k :: 0 <= k < |Tokenize(text, p).0| ==> p <= Tokenize(text, p).0[k].start
    ensures Ordered(Tokenize(text, p).0)
    decreases |text| - p
  {
    hide Step, WellFormedToken, FillToken;
    StepShape(text, p);
    match Step(text, p)
    case Emit(t, next) =>
      TokenizeShape(text, next);
    case Skip(next) =>
      TokenizeShape(text, next);
    case Finish(t) =>
    case Fail =>
  }

  /** Every token of a parse has the shape of its kind, and the tokens
      come in reading order. */
  lemma ParseShape(text: string)
    ensures forall k :: 0 <= k < |Tokenize(text, 0).0| ==> WellFormedToken(text, Tokenize(text, 0).0[k])
    ensures Ordered(Tokenize(text, 0).0)
  {
    TokenizeShape(text, 0);
  }

  /** A successful parse ends with exactly one end token; a failed one has
      none. */
  lemma {:induction false} EndTokenOnce(text: string, p: nat)
    requires p <= |text|
    ensures Tokenize(text, p).1 ==>
              |Tokenize(text, p).0| >= 1 && Tokenize(text, p).0[|Tokenize(text, p).0| - 1].kind == TokEnd
    ensures forall k :: 0 <= k < |Tokenize(text, p).0| && Tokenize(text, p).0[k].kind == TokEnd ==>
              Tokenize(text, p).1 && k == |Tokenize(text, p).0| - 1
    decreases |text| - p
  {
    hide Step;
    match Step(text, p)
    case Emit(t, next) =>
      EndTokenOnce(text, next);
    case Skip(next) =>
      EndTokenOnce(text, next);
    case Finish(t) =>
    case Fail =>
  }

  /** A parse fails only at an opening quote whose string is never
      closed. */
  lemma {:induction false} FailureIsUnterminatedString(text: string, p: nat)
    requires p <= |text|
    ensures !Tokenize(text, p).1 ==>
              exists q :: p <= q < |text| && text[q] == '"' && StringEnd(text, q + 1).None?
    decreases |text| - p
  {
    match Step(text, p)
    case Emit(t, next) =>
      FailureIsUnterminatedString(text, next);
    case Skip(next) =>
      FailureIsUnterminatedString(text, next);
    case Finish(t) =>
    case Fail =>
      assert text[p] == '"' && StringEnd(text, p + 1).None?;
  }

  /** A text without a quote always parses. */
  lemma NoQuoteParses(text: string)
    requires forall i :: 0 <= i < |text| ==> text[i] != '"'
    ensures Tokenize(text, 0).1
  {
    FailureIsUnterminatedString(text, 0);
  }

  /** Blanks produce no token: after a blank run the parse goes on as if
      the run were not there, and a text of blanks gives just the end
      token. */
  lemma {:induction false} BlanksOnly(text: string, p: nat)
    requires p <= |text|
    requires forall i :: p <= i < |text| ==> IsBlank(text[i])
    ensures Tokenize(text, p) == ([FillToken(text, TokEnd, |text|, |text| + 1)], true)
    decreases |text| - p
  {
    if p < |text| {
      BlanksOnly(text, SpanEnd(text, p, Blanks));
    }
  }

  // ---------------------------------------------------------------------
  // The scope machine

  /** The IN_INT, IN_IDENTIFIER and IN_BLANK scopes: advance while the
      character belongs to the class. */
  method ScanSpan(text: string, p: nat, cls: CharClass) returns (q: nat)
    requires p <= |text|
    ensures q == SpanEnd(text, p, cls)
  {
    q := p;
    while q < |text| && InClass(text[q], cls)
      invariant p <= q <= |text|
      invariant SpanEnd(text, q, cls) == SpanEnd(text, p, cls)
      decreases |text| - q
    {
      q := q + 1;
    }
  }

  /** The IN_STRING scope from the first character after the opening
      quote: a backslash before a quote skips that quote, the terminator
      fails the scope. */
  method ScanString(text: string, p: nat) returns (r: Option<nat>)
    requires p <= |text|
    ensures r == StringEnd(text, p)
  {
    var i := p;
    while true
      invariant p <= i <= |text|
      invariant StringEnd(text, i) == StringEnd(text, p)
      decreases |text| - i
    {
      if i == |text| {
        return None;
      }
      if text[i] == '"' {
        return Some(i);
      }
      if text[i] == '\\' && i + 1 < |text| && text[i + 1] == '"' {
        i := i + 1;
      }
      i := i + 1;
    }
  }

  /** One round of the IN_DEFAULT scope: choose the sub-scope by the
      current character and run it. */
  method ParseScope(text: string, p: nat) returns (r: StepResult)
    requires p <= |text|
    ensures r == Step(text, p)
  {
    if p == |text| {
      return Finish(FillToken(text, TokEnd, |text|, |text| + 1));
    }
    var c := text[p];
    if IsDigit(c) {
      var q := ScanSpan(text, p, Digits);
      r := Emit(FillToken(text, TokInt, p, q), q);
    } else if c == '"' {
      var q := ScanString(text, p + 1);
      match q
      case None => r := Fail;
      case Some(e) => r := Emit(FillToken(text, TokString, p + 1, e), e + 1);
    } else if IsAlpha(c) || c == '_' {
      var q := ScanSpan(text, p, IdentChars);
      r := Emit(FillToken(text, TokIdentifier, p, q), q);
    } else if IsBlank(c) {
      var q := ScanSpan(text, p, Blanks);
      r := Skip(q);
    } else {
      r := Emit(FillToken(text, TokUnknown, p, p + 1), p + 1);
    }
  }

  lemma TokenizeUnfold(text: string, p: nat)
    requires p <= |text|
    ensures Step(text, p).Emit? ==>
              Tokenize(text, p).0 == [Step(text, p).t] + Tokenize(text, Step(text, p).next).0 &&
              Tokenize(text, p).1 == Tokenize(text, Step(text, p).next).1
    ensures Step(text, p).Skip? ==> Tokenize(text, p) == Tokenize(text, Step(text, p).next)
    ensures Step(text, p).Finish? ==> Tokenize(text, p) == ([Step(text, p).t], true)
    ensures Step(text, p).Fail? ==> Tokenize(text, p) == ([], false)
  {
  }

  /** The first of the token allocations i to n - 1 whose calloc fails,
      or n when all of them succeed; allocOk(j) is the outcome of the
      allocation for the j-th token of a parse. */
  function FirstFailedAlloc(allocOk: nat -> bool, i: nat, n: nat): (k: nat)
    requires i <= n
    ensures i <= k <= n
    ensures forall j :: i <= j < k ==> allocOk(j)
    ensures k < n ==> !allocOk(k)
    decreases n - i
  {
    if i == n || !allocOk(i) then i else FirstFailedAlloc(allocOk, i + 1, n)
  }

  /** The allocation for the token after `done`, a prefix of the parse's
      tokens whose allocations all succeeded, fails: the parse keeps
      exactly `done`. */
  lemma AllocFailsAt(allocOk: nat -> bool, done: seq<Token>, all: seq<Token>)
    requires |done| < |all| && all[..|done|] == done
    requires forall j :: 0 <= j < |done| ==> allocOk(j)
    requires !allocOk(|done|)
    ensures FirstFailedAlloc(allocOk, 0, |all|) == |done|
    ensures all[..FirstFailedAlloc(allocOk, 0, |all|)] == done
  {
  }

  /** gpm_console_parse: the tokens in the order dlist_add receives them
      (the list then holds them newest first) and the status. Each token
      is first allocated by allocate_token, whose failed calloc fails the
      parse; so does an unterminated string. On failure the tokens added
      before it stay in the list. */
  method Parse(text: string, allocOk: nat -> bool) returns (status: Status, tokens: seq<Token>)
    requires IsCString(text)
    ensures var k := FirstFailedAlloc(allocOk, 0, |Tokenize(text, 0).0|);
            tokens == Tokenize(text, 0).0[..k] &&
            (status == Success <==> k == |Tokenize(text, 0).0| && Tokenize(text, 0).1)
  {
    hide Tokenize, Step, FillToken;
    ghost var all := Tokenize(text, 0).0;
    var pos := 0;
    var endOfStream := false;
    tokens := [];
    assert tokens + Tokenize(text, 0).0 == Tokenize(text, 0).0;
    while !endOfStream
      invariant pos <= |text|
      invariant forall j :: 0 <= j < |tokens| ==> allocOk(j)
      invariant !endOfStream ==> all == tokens + Tokenize(text, pos).0
      invariant !endOfStream ==> Tokenize(text, 0).1 == Tokenize(text, pos).1
      invariant endOfStream ==> tokens == all && Tokenize(text, 0).1
      decreases |text| - pos + (if endOfStream then 0 else 1)
    {
      TokenizeUnfold(text, pos);
      var r := ParseScope(text, pos);
      match r
      case Emit(t, next) =>
        if !allocOk(|tokens|) {
          assert all == tokens + ([t] + Tokenize(text, next).0);
          assert all[..|tokens|] == tokens;
          AllocFailsAt(allocOk, tokens, all);
          return Failure, tokens;
        }
        tokens := tokens + [t];
        pos := next;
      case Skip(next) =>
        pos := next;
      case Finish(t) =>
        if !allocOk(|tokens|) {
          assert all == tokens + [t];
          assert all[..|tokens|] == tokens;
          AllocFailsAt(allocOk, tokens, all);
          return Failure, tokens;
        }
        tokens := tokens + [t];
        endOfStream := true;
      case Fail =>
        assert all == tokens;
        return Failure, tokens;
    }
    assert all[..|all|] == all;
    status := Success;
  }
}
