/** Literals of the SMT script and the values that are read back from a model. */
module Literals {
  import opened Common
  import opened Expressions
  import opened Smt
  import opened Sexpr

  // ----- Decimal numbers

  predicate IsDigit(c: char) {
    '0' <= c <= '9'
  }

  function Digit(n: nat): (c: char)
    requires n < 10
    ensures IsDigit(c)
  {
    ('0' as int + n) as char
  }

  function Digits(n: nat): string {
    if n < 10 then [Digit(n)] else Digits(n / 10) + [Digit(n % 10)]
  }

  /** The value of a digit in bases up to sixteen. */
  function DigitValue(c: char): Option<nat> {
    if IsDigit(c) then Some(c as int - '0' as int)
    else if 'a' <= c <= 'f' then Some(c as int - 'a' as int + 10)
    else if 'A' <= c <= 'F' then Some(c as int - 'A' as int + 10)
    else None
  }

  /** The number that digits of a base write. */
  function NumberIn(base: nat, s: string): Option<int>
    decreases |s|
  {
    if s == "" then None
    else
      var last := DigitValue(s[|s| - 1]);
      if last.None? || last.value >= base then None
      else if |s| == 1 then Some(last.value)
      else
        var before := NumberIn(base, s[..|s| - 1]);
        if before.None? then None else Some(before.value * base + last.value)
  }

  function IntOf(s: string): Option<int> {
    if s != "" && s[0] == '-' then
      var n := NumberIn(10, s[1..]);
      if n.None? then None else Some(-n.value)
    else
      var n := NumberIn(10, s);
      if n.None? then None else Some(n.value)
  }

  lemma {:induction false} DigitsNumber(n: nat)
    ensures NumberIn(10, Digits(n)) == Some(n)
    ensures Digits(n) != "" && forall i :: 0 <= i < |Digits(n)| ==> IsDigit(Digits(n)[i])
  {
    if n >= 10 {
      DigitsNumber(n / 10);
      assert Digits(n)[..|Digits(n)| - 1] == Digits(n / 10);
    }
  }

  lemma DigitsInt(n: nat)
    ensures IntOf(Digits(n)) == Some(n)
  {
    DigitsNumber(n);
  }

  // ----- Writing literals

  /** Negative numbers are applications of the minus sign. */
  function IntAtom(n: int): string {
    if n >= 0 then Digits(n) else "(- " + Digits(-n) + ")"
  }

  /** The value has a literal of the sort. */
  predicate HasLiteral(codec: Codec, s: Sort, v: Value) {
    if s.BitVectorSort? then v.Int? && v.n >= 0 else HasSort(codec, s, v)
  }

  function LiteralText(codec: Codec, s: Sort, v: Value): string
    requires HasLiteral(codec, s, v)
  {
    match s
    case BoolSort => if v.b then "true" else "false"
    case IntSort => IntAtom(v.n)
    case BitVectorSort(width) => "(_ bv" + Digits(v.n) + " " + Digits(width) + ")"
    case NamedSort(_) => Digits(IndexOf(codec[s], v))
  }

  // ----- Reading values

  function NumberOf(form: SExpr): Option<int> {
    match form
    case Atom(text) => IntOf(text)
    case List(items) =>
      if |items| == 2 && items[0] == Atom("-") && items[1].Atom? then
        var n := IntOf(items[1].text);
        if n.None? then None else Some(-n.value)
      else None
  }

  /** The solver's own notations for bit-vectors. */
  function BitsOf(form: SExpr): Option<int> {
    match form
    case Atom(text) =>
      if |text| >= 2 && text[..2] in {"#x", "#b"} then
        var n := NumberIn(if text[1] == 'x' then 16 else 2, text[2..]);
        if n.None? then None else Some(n.value)
      else NumberOf(form)
    case List(items) =>
      if |items| >= 2 && items[0] == Atom("_") && items[1].Atom? && |items[1].text| >= 2
          && items[1].text[..2] == "bv" then
        IntOf(items[1].text[2..])
      else NumberOf(form)
  }

  function DecodeAtom(codec: Codec, s: Sort, form: SExpr): Option<Value> {
    match s
    case BoolSort =>
      if form == Atom("true") then Some(TRUE) else if form == Atom("false") then Some(FALSE) else None
    case IntSort =>
      var n := NumberOf(form);
      if n.None? then None else Some(Int(n.value))
    case BitVectorSort(_) =>
      var n := BitsOf(form);
      if n.None? then None else Some(Int(n.value))
    case NamedSort(_) =>
      var n := NumberOf(form);
      if n.None? || s !in codec || !(0 <= n.value < |codec[s]|) then None else Some(codec[s][n.value])
  }

  // ----- The round trip

  /** A token that needs no bars. */
  predicate Plain(w: string) {
    w != "" && w[0] != '|' && forall i :: 0 <= i < |w| ==> !IsSpace(w[i]) && !IsParenthesis(w[i])
  }

  predicate Ends(rest: string) {
    rest == "" || IsSpace(rest[0]) || IsParenthesis(rest[0])
  }

  lemma {:induction false} PlainIsWhole(w: string, rest: string)
    requires (forall i :: 0 <= i < |w| ==> !IsSpace(w[i]) && !IsParenthesis(w[i])) && Ends(rest)
    ensures PlainLength(w + rest) == |w|
  {
    if w == "" {
      assert w + rest == rest;
    } else {
      assert (w + rest)[1..] == w[1..] + rest;
      PlainIsWhole(w[1..], rest);
    }
  }

  lemma PlainIsOneToken(w: string, rest: string)
    requires Plain(w) && Ends(rest)
    ensures Tokens(w + rest) == [w] + Tokens(rest)
  {
    PlainIsWhole(w, rest);
    assert (w + rest)[..|w|] == w && (w + rest)[|w|..] == rest;
  }

  /** Printable characters, without parentheses and a leading bar. */
  predicate Word(w: string) {
    w != "" && w[0] != '|' && forall i :: 0 <= i < |w| ==> '!' <= w[i] <= '~' && w[i] !in "()"
  }

  /** Each word with the blank that follows it. */
  function Joined(words: seq<string>, blanks: seq<char>): string
    requires |words| == |blanks|
  {
    if words == [] then "" else words[0] + ([blanks[0]] + Joined(words[1..], blanks[1..]))
  }

  /** Words between blanks and line breaks are the tokens. */
  lemma {:induction false} WordsAreTokens(words: seq<string>, blanks: seq<char>)
    requires |words| == |blanks| && forall k :: 0 <= k < |words| ==> Word(words[k]) && blanks[k] in " \t\r\n"
    ensures Tokens(Joined(words, blanks)) == words
  {
    if words != [] {
      var rest := Joined(words[1..], blanks[1..]);
      assert Plain(words[0]);
      PlainIsOneToken(words[0], [blanks[0]] + rest);
      assert ([blanks[0]] + rest)[1..] == rest;
      WordsAreTokens(words[1..], blanks[1..]);
    }
  }

  lemma DigitsArePlain(n: nat)
    ensures Plain(Digits(n))
  {
    DigitsNumber(n);
  }

  lemma AtomReads(w: string)
    requires Plain(w)
    ensures Forms(Tokens(w)) == Some([Atom(w)]) && w != "(" && w != ")"
  {
    PlainIsOneToken(w, "");
    assert w + "" == w && Tokens("") == [];
    FormsRead([Atom(w)]);
    assert FlattenAll([Atom(w)]) == [w];
  }

  /** Two plain tokens and the closing parenthesis. */
  lemma PairTail(v: string, w: string)
    requires Plain(v) && Plain(w)
    ensures Tokens(v + (" " + (w + ")"))) == [v, w, ")"]
  {
    PlainIsOneToken(v, " " + (w + ")"));
    SpaceIsNoToken(w + ")");
    PlainIsOneToken(w, ")");
    ParenthesisIsOneToken(')', "");
    assert ")" + "" == ")" && Tokens("") == [];
  }

  /** Two plain tokens in a list. */
  lemma PairReads(v: string, w: string)
    requires Plain(v) && Plain(w)
    ensures Forms(Tokens("(" + v + " " + w + ")")) == Some([List([Atom(v), Atom(w)])])
  {
    assert "(" + v + " " + w + ")" == "(" + (v + (" " + (w + ")")));
    ParenthesisIsOneToken('(', v + (" " + (w + ")")));
    PairTail(v, w);
    AtomReads(v);
    AtomReads(w);
    FlattenPair(v, w);
    assert Nested(Atom(v)) && Nested(Atom(w));
    FormsRead([List([Atom(v), Atom(w)])]);
  }

  lemma FlattenPair(v: string, w: string)
    ensures FlattenAll([List([Atom(v), Atom(w)])]) == ["(", v, w, ")"]
  {
    var items := [Atom(v), Atom(w)];
    assert items[1..] == [Atom(w)] && items[1..][1..] == [];
    assert FlattenAll(items) == [v] + FlattenAll([Atom(w)]);
    assert FlattenAll([Atom(w)]) == [w];
    assert Flatten(List(items)) == ["("] + [v, w] + [")"];
  }

  lemma Regroup(a: string, b: string, c: string, d: string)
    ensures a + b + c + d == a + (b + (c + d))
  {
  }

  lemma TripleTokens(u: string, v: string, w: string)
    requires Plain(u) && Plain(v) && Plain(w)
    ensures Tokens("(" + u + " " + v + " " + w + ")") == ["(", u, v, w, ")"]
  {
    var tail := v + (" " + (w + ")"));
    Regroup("(" + u + " ", v, " ", w + ")");
    assert "(" + u + " " + v + " " + w + ")" == "(" + u + " " + v + " " + (w + ")");
    Regroup("(", u, " ", tail);
    ParenthesisIsOneToken('(', u + (" " + tail));
    PlainIsOneToken(u, " " + tail);
    SpaceIsNoToken(tail);
    PairTail(v, w);
  }

  /** Three plain tokens in a list. */
  lemma TripleReads(u: string, v: string, w: string)
    requires Plain(u) && Plain(v) && Plain(w)
    ensures Forms(Tokens("(" + u + " " + v + " " + w + ")")) == Some([List([Atom(u), Atom(v), Atom(w)])])
  {
    TripleTokens(u, v, w);
    AtomReads(u);
    AtomReads(v);
    AtomReads(w);
    FlattenTriple(u, v, w);
    assert Nested(Atom(u)) && Nested(Atom(v)) && Nested(Atom(w));
    FormsRead([List([Atom(u), Atom(v), Atom(w)])]);
  }

  lemma FlattenTriple(u: string, v: string, w: string)
    ensures FlattenAll([List([Atom(u), Atom(v), Atom(w)])]) == ["(", u, v, w, ")"]
  {
    var items := [Atom(u), Atom(v), Atom(w)];
    assert items[1..] == [Atom(v), Atom(w)] && items[1..][1..] == [Atom(w)] && items[1..][1..][1..] == [];
    assert FlattenAll(items) == [u] + FlattenAll([Atom(v), Atom(w)]);
    assert FlattenAll([Atom(v), Atom(w)]) == [v] + FlattenAll([Atom(w)]);
    assert FlattenAll([Atom(w)]) == [w];
    assert Flatten(List(items)) == ["("] + [u, v, w] + [")"];
  }

  /** An integer literal reads back, negative ones through the minus application. */
  lemma IntReadsBack(n: int) returns (form: SExpr)
    ensures Forms(Tokens(IntAtom(n))) == Some([form]) && NumberOf(form) == Some(n)
  {
    if n >= 0 {
      form := Atom(Digits(n));
      DigitsArePlain(n);
      AtomReads(form.text);
      DigitsInt(n);
    } else {
      form := List([Atom("-"), Atom(Digits(-n))]);
      DigitsArePlain(-n);
      PairReads("-", Digits(-n));
      assert "(" + "-" + " " + Digits(-n) + ")" == IntAtom(n);
      DigitsInt(-n);
    }
  }

  lemma BitsReadBack(n: nat, width: nat) returns (form: SExpr)
    ensures Forms(Tokens("(_ bv" + Digits(n) + " " + Digits(width) + ")")) == Some([form]) && BitsOf(form) == Some(n)
  {
    var bits := "bv" + Digits(n);
    form := List([Atom("_"), Atom(bits), Atom(Digits(width))]);
    DigitsArePlain(n);
    DigitsArePlain(width);
    TripleReads("_", bits, Digits(width));
    assert "(" + "_" + " " + bits + " " + Digits(width) + ")" == "(_ bv" + Digits(n) + " " + Digits(width) + ")";
    assert bits[..2] == "bv" && bits[2..] == Digits(n);
    DigitsInt(n);
  }

  /** The literal of a value reads back as one form, which decodes to the value. */
  lemma LiteralReadsBack(codec: Codec, s: Sort, v: Value) returns (form: SExpr)
    requires HasLiteral(codec, s, v)
    ensures Forms(Tokens(LiteralText(codec, s, v))) == Some([form])
    ensures DecodeAtom(codec, s, form) == Some(v)
  {
    match s
    case BoolSort =>
      form := Atom(if v.b then "true" else "false");
      AtomReads(form.text);
    case IntSort =>
      form := IntReadsBack(v.n);
    case BitVectorSort(width) =>
      form := BitsReadBack(v.n, width);
    case NamedSort(_) =>
      form := IntReadsBack(IndexOf(codec[s], v));
  }

  // ----- Replies of the solver

  function DigitIn(d: nat, upper: bool): (c: char)
    requires d < 16
    ensures DigitValue(c) == Some(d) && !IsSpace(c) && !IsParenthesis(c)
  {
    if d < 10 then Digit(d)
    else if upper then ('A' as int + d - 10) as char
    else ('a' as int + d - 10) as char
  }

  function Power(base: nat, width: nat): nat {
    if width == 0 then 1 else base * Power(base, width - 1)
  }

  /** A number written with a fixed number of digits. */
  function FixedWidth(base: nat, n: nat, width: nat, upper: bool): string
    requires 2 <= base <= 16
    decreases width
  {
    if width == 0 then ""
    else FixedWidth(base, n / base, width - 1, upper) + [DigitIn(n % base, upper)]
  }

  /** One more digit. */
  lemma NextDigit(base: nat, front: string, n: nat, q: nat, d: nat, upper: bool)
    requires d < base <= 16 && n == q * base + d
    requires if front == "" then q == 0 else NumberIn(base, front) == Some(q)
    ensures NumberIn(base, front + [DigitIn(d, upper)]) == Some(n)
  {
    var s := front + [DigitIn(d, upper)];
    assert s[..|s| - 1] == front && s[|s| - 1] == DigitIn(d, upper);
  }

  lemma QuotientBelow(n: nat, base: nat, bound: nat)
    requires base > 0 && n < base * bound
    ensures n / base < bound && n == (n / base) * base + n % base
  {
    assert n == (n / base) * base + n % base;
  }

  lemma {:induction false} FixedWidthIsPlain(base: nat, n: nat, width: nat, upper: bool)
    requires 2 <= base <= 16
    ensures var s := FixedWidth(base, n, width, upper);
            |s| == width && forall i :: 0 <= i < |s| ==> !IsSpace(s[i]) && !IsParenthesis(s[i])
    decreases width
  {
    if width > 0 { FixedWidthIsPlain(base, n / base, width - 1, upper); }
  }

  lemma {:induction false} FixedWidthReads(base: nat, n: nat, width: nat, upper: bool)
    requires 2 <= base <= 16 && n < Power(base, width) && width > 0
    ensures NumberIn(base, FixedWidth(base, n, width, upper)) == Some(n)
    decreases width
  {
    var q, d := n / base, n % base;
    QuotientBelow(n, base, Power(base, width - 1));
    FixedWidthIsPlain(base, q, width - 1, upper);
    if width > 1 { FixedWidthReads(base, q, width - 1, upper); }
    NextDigit(base, FixedWidth(base, q, width - 1, upper), n, q, d, upper);
  }

  lemma BitsOfDigits(base: nat, number: string, n: nat)
    requires base in {2, 16} && NumberIn(base, number) == Some(n)
    ensures BitsOf(Atom((if base == 16 then "#x" else "#b") + number)) == Some(n)
  {
    var prefix := if base == 16 then "#x" else "#b";
    assert (prefix + number)[..2] == prefix && (prefix + number)[2..] == number;
  }

  /** A solver may answer with hexadecimal or binary digits of the width; they decode to the number. */
  lemma DigitRepliesDecode(codec: Codec, width: nat, base: nat, n: nat, digits: nat, upper: bool)
    requires base in {2, 16} && digits > 0 && n < Power(base, digits)
    ensures var text := (if base == 16 then "#x" else "#b") + FixedWidth(base, n, digits, upper);
            && Forms(Tokens(text)) == Some([Atom(text)])
            && DecodeAtom(codec, BitVectorSort(width), Atom(text)) == Some(Int(n))
  {
    var prefix, number := if base == 16 then "#x" else "#b", FixedWidth(base, n, digits, upper);
    FixedWidthReads(base, n, digits, upper);
    FixedWidthIsPlain(base, n, digits, upper);
    BitsOfDigits(base, number, n);
    PrefixIsPlain(prefix, number);
    AtomReads(prefix + number);
  }

  lemma PrefixIsPlain(prefix: string, number: string)
    requires prefix in {"#x", "#b"}
    requires forall i :: 0 <= i < |number| ==> !IsSpace(number[i]) && !IsParenthesis(number[i])
    ensures Plain(prefix + number)
  {
    var w := prefix + number;
    assert forall i :: 2 <= i < |w| ==> w[i] == number[i - 2];
  }
}
