/** The text exchanged with the SMT solver: quoting, tokens, nested lists and literals. */
module Sexpr {
  import opened Common
  import opened Expressions
  import opened Smt

  // ----- Characters and quoting

  /** White space, as `str.isspace` has it. */
  predicate IsSpace(c: char) {
    var n := c as int;
    || 9 <= n <= 13 || 28 <= n <= 32 || n == 0x85 || n == 0xA0 || n == 0x1680 || 0x2000 <= n <= 0x200A
    || n == 0x2028 || n == 0x2029 || n == 0x202F || n == 0x205F || n == 0x3000
  }

  predicate IsParenthesis(c: char) {
    c == '(' || c == ')'
  }

  function Escape(name: string): string {
    if name == "" then ""
    else (if name[0] == '\\' || name[0] == '|' then ['\\', name[0]] else [name[0]]) + Escape(name[1..])
  }

  /** A quoted symbol. */
  function Quote(name: string): string {
    "|" + Escape(name) + "|"
  }

  // ----- Tokens

  /** The text up to the closing bar, unescaped, and what follows the bar. */
  function QuotedFrom(s: string): (string, string)
    decreases |s|
  {
    if s == "" || s[0] == '|' then ("", if s == "" then "" else s[1..])
    else
      var t := if s[0] == '\\' && |s| > 1 then s[1..] else s;
      var (text, rest) := QuotedFrom(t[1..]);
      ([t[0]] + text, rest)
  }

  lemma {:induction false} QuotedShrinks(s: string)
    ensures |QuotedFrom(s).1| <= |s|
    decreases |s|
  {
    if s != "" && s[0] != '|' {
      var t := if s[0] == '\\' && |s| > 1 then s[1..] else s;
      QuotedShrinks(t[1..]);
    }
  }

  /** The length of the plain token that the text starts with. */
  function PlainLength(s: string): (n: nat)
    ensures n <= |s|
  {
    if s == "" || IsSpace(s[0]) || IsParenthesis(s[0]) then 0 else 1 + PlainLength(s[1..])
  }

  function Tokens(s: string): seq<string>
    decreases |s|
  {
    if s == "" then []
    else if IsSpace(s[0]) then Tokens(s[1..])
    else if IsParenthesis(s[0]) then [[s[0]]] + Tokens(s[1..])
    else if s[0] == '|' then
      var (text, rest) := QuotedFrom(s[1..]);
      QuotedShrinks(s[1..]);
      [text] + Tokens(rest)
    else
      var n := PlainLength(s);
      [s[..n]] + Tokens(s[n..])
  }

  /** One character of a quoted symbol, after a backslash if there is one. */
  lemma QuotedStep(s: string, j: nat)
    requires j < |s| && s[j] != '|'
    ensures var k := if s[j] == '\\' && j + 1 < |s| then j + 1 else j;
            && QuotedFrom(s[j..]).0 == [s[k]] + QuotedFrom(s[k + 1..]).0
            && QuotedFrom(s[j..]).1 == QuotedFrom(s[k + 1..]).1
  {
    var k := if s[j] == '\\' && j + 1 < |s| then j + 1 else j;
    assert s[j..][0] == s[j] && (k > j ==> s[j..][1..] == s[k..]);
    assert s[k..][1..] == s[k + 1..] && s[k..][0] == s[k];
  }

  /** Reads a quoted symbol from position `i`, just after its opening bar. */
  method ReadQuoted(s: string, i: nat) returns (text: string, next: nat)
    requires i <= |s|
    ensures i < next <= |s| + 1
    ensures QuotedFrom(s[i..]).0 == text && QuotedFrom(s[i..]).1 == if next <= |s| then s[next..] else ""
  {
    var j, buf := i, "";
    ghost var goal := QuotedFrom(s[i..]);
    while j < |s| && s[j] != '|'
      invariant i <= j <= |s|
      invariant goal.0 == buf + QuotedFrom(s[j..]).0 && goal.1 == QuotedFrom(s[j..]).1
    {
      QuotedStep(s, j);
      if s[j] == '\\' && j + 1 < |s| { j := j + 1; }
      buf := buf + [s[j]];
      j := j + 1;
    }
    if j < |s| { assert s[j..][0] == s[j] && s[j..][1..] == s[j + 1..]; }
    return buf, j + 1;
  }

  /** Reads one token, or skips white space, at position `i`. */
  method ReadToken(s: string, i: nat) returns (token: seq<string>, next: nat)
    requires i < |s|
    ensures i < next <= |s| + 1
    ensures Tokens(s[i..]) == token + Tokens(if next <= |s| then s[next..] else "")
  {
    var c := s[i];
    ghost var rest := s[i..];
    assert rest[0] == c && rest[1..] == s[i + 1..];
    if IsSpace(c) { return [], i + 1; }
    if IsParenthesis(c) { return [[c]], i + 1; }
    if c == '|' {
      var text, after := ReadQuoted(s, i + 1);
      return [text], after;
    }
    var j := ReadPlain(s, i);
    assert rest[..j - i] == s[i..j] && rest[j - i..] == s[j..];
    return [s[i..j]], j;
  }

  /** The end of the plain token at position `i`. */
  method ReadPlain(s: string, i: nat) returns (j: nat)
    requires i <= |s|
    ensures i <= j <= |s| && PlainLength(s[i..]) == j - i
  {
    j := i;
    while j < |s| && !IsSpace(s[j]) && !IsParenthesis(s[j])
      invariant i <= j <= |s| && PlainLength(s[i..]) == j - i + PlainLength(s[j..])
    {
      assert s[j..][0] == s[j] && s[j..][1..] == s[j + 1..];
      j := j + 1;
    }
  }

  method Tokenize(s: string) returns (out: seq<string>)
    ensures out == Tokens(s)
  {
    out := [];
    var i := 0;
    assert s[0..] == s;
    while i < |s|
      invariant 0 <= i <= |s| + 1
      invariant out + Tokens(if i <= |s| then s[i..] else "") == Tokens(s)
      decreases |s| + 1 - i
    {
      ghost var was, here := out, s[i..];
      var token, next := ReadToken(s, i);
      i, out := next, out + token;
      assert was + (token + Tokens(if i <= |s| then s[i..] else "")) == out + Tokens(if i <= |s| then s[i..] else "");
    }
    assert Tokens("") == [];
  }

  // ----- Nested lists

  datatype SExpr = Atom(text: string) | List(items: seq<SExpr>)

  /** One form and the tokens after it; None when the tokens end too early. */
  function One(toks: seq<string>): (r: Option<(SExpr, seq<string>)>)
    ensures r.Some? ==> |r.value.1| < |toks|
    decreases |toks|, 0
  {
    if toks == [] then None
    else if toks[0] == "(" then
      var items := Items(toks[1..]);
      if items.None? then None else Some((List(items.value.0), items.value.1))
    else Some((Atom(toks[0]), toks[1..]))
  }

  /** The forms up to the closing parenthesis. */
  function Items(toks: seq<string>): (r: Option<(seq<SExpr>, seq<string>)>)
    ensures r.Some? ==> |r.value.1| < |toks|
    decreases |toks|, 1
  {
    if toks == [] then None
    else if toks[0] == ")" then Some(([], toks[1..]))
    else
      var first := One(toks);
      if first.None? then None
      else
        var others := Items(first.value.1);
        if others.None? then None else Some(([first.value.0] + others.value.0, others.value.1))
  }

  function Forms(toks: seq<string>): Option<seq<SExpr>>
    decreases |toks|
  {
    if toks == [] then Some([])
    else
      var first := One(toks);
      if first.None? then None
      else
        var others := Forms(first.value.1);
        if others.None? then None else Some([first.value.0] + others.value)
  }

  /** The position of one reading of a token list. */
  class Reader {
    const toks: seq<string>
    var pos: nat

    constructor (toks: seq<string>)
      ensures this.toks == toks && pos == 0
    {
      this.toks, pos := toks, 0;
    }

    method ReadOne() returns (form: Option<SExpr>)
      requires pos <= |toks|
      modifies this
      ensures pos <= |toks|
      ensures form.None? <==> One(toks[old(pos)..]).None?
      ensures form.Some? ==> pos > old(pos) && One(toks[old(pos)..]) == Some((form.value, toks[pos..]))
      decreases |toks| - pos, 0
    {
      if pos == |toks| { return None; }
      ghost var start := pos;
      assert toks[start..][0] == toks[start] && toks[start..][1..] == toks[start + 1..];
      if toks[pos] == "(" {
        pos := pos + 1;
        var items := ReadItems();
        return if items.None? then None else Some(List(items.value));
      }
      form := Some(Atom(toks[pos]));
      pos := pos + 1;
    }

    /** Reads the forms up to the closing parenthesis, and that parenthesis. */
    method ReadItems() returns (items: Option<seq<SExpr>>)
      requires pos <= |toks|
      modifies this
      ensures pos <= |toks|
      ensures items.None? <==> Items(toks[old(pos)..]).None?
      ensures items.Some? ==> pos > old(pos) && Items(toks[old(pos)..]) == Some((items.value, toks[pos..]))
      decreases |toks| - pos, 1
    {
      ghost var start := pos;
      var read := [];
      while pos < |toks| && toks[pos] != ")"
        invariant start <= pos <= |toks|
        invariant Items(toks[start..]).None? <==> Items(toks[pos..]).None?
        invariant Items(toks[pos..]).Some? ==>
          && Items(toks[start..]).value.0 == read + Items(toks[pos..]).value.0
          && Items(toks[start..]).value.1 == Items(toks[pos..]).value.1
        decreases |toks| - pos
      {
        assert toks[pos..][0] == toks[pos];
        var item := ReadOne();
        if item.None? { return None; }
        read := read + [item.value];
      }
      if pos == |toks| { return None; }
      assert toks[pos..][0] == toks[pos] && toks[pos..][1..] == toks[pos + 1..];
      assert read + [] == read;
      pos := pos + 1;
      items := Some(read);
    }
  }

  /** Reads every form of the text; an error when the tokens end inside a list. */
  method ParseSexprs(s: string) returns (forms: Option<seq<SExpr>>)
    ensures forms == Forms(Tokens(s))
  {
    var toks := Tokenize(s);
    var reader := new Reader(toks);
    var read := [];
    assert toks[0..] == toks;
    while reader.pos < |toks|
      invariant reader.pos <= |toks| && reader.toks == toks
      invariant Forms(toks).None? <==> Forms(toks[reader.pos..]).None?
      invariant Forms(toks).Some? ==> Forms(toks).value == read + Forms(toks[reader.pos..]).value
      decreases |toks| - reader.pos
    {
      var form := reader.ReadOne();
      if form.None? { return None; }
      read := read + [form.value];
    }
    assert toks[reader.pos..] == [] && read + [] == read;
    forms := Some(read);
  }

  // ----- Printing, and reading back

  function Print(form: SExpr): string {
    match form
    case Atom(text) => Quote(text)
    case List(items) => "(" + PrintAll(items) + ")"
  }

  /** Forms separated by spaces. */
  function PrintAll(forms: seq<SExpr>): string {
    if forms == [] then ""
    else if |forms| == 1 then Print(forms[0])
    else Print(forms[0]) + " " + PrintAll(forms[1..])
  }

  /** The tokens of a form. */
  function Flatten(form: SExpr): seq<string> {
    match form
    case Atom(text) => [text]
    case List(items) => ["("] + FlattenAll(items) + [")"]
  }

  function FlattenAll(forms: seq<SExpr>): seq<string> {
    if forms == [] then [] else Flatten(forms[0]) + FlattenAll(forms[1..])
  }

  /** An escaped name reads back, whatever follows its closing bar. */
  lemma {:induction false} EscapeReads(name: string, rest: string)
    ensures QuotedFrom(Escape(name) + "|" + rest).0 == name && QuotedFrom(Escape(name) + "|" + rest).1 == rest
  {
    var s := Escape(name) + "|" + rest;
    if name == "" {
      assert s == "|" + rest && s[1..] == rest;
    } else {
      var tail := Escape(name[1..]) + "|" + rest;
      EscapeReads(name[1..], rest);
      if name[0] == '\\' || name[0] == '|' {
        assert s == ['\\', name[0]] + tail;
        assert s[1..][0] == name[0] && s[1..][1..] == tail;
      } else {
        assert s == [name[0]] + tail;
        assert s[1..] == tail;
      }
      assert name == [name[0]] + name[1..];
    }
  }

  lemma QuoteIsOneToken(name: string, rest: string)
    ensures Tokens(Quote(name) + rest) == [name] + Tokens(rest)
  {
    EscapeReads(name, rest);
    var s := Quote(name) + rest;
    assert s[0] == '|' && s[1..] == Escape(name) + "|" + rest;
  }

  lemma ParenthesisIsOneToken(c: char, rest: string)
    requires IsParenthesis(c)
    ensures Tokens([c] + rest) == [[c]] + Tokens(rest)
  {
    assert ([c] + rest)[1..] == rest;
  }

  lemma SpaceIsNoToken(rest: string)
    ensures Tokens(" " + rest) == Tokens(rest)
  {
    assert (" " + rest)[1..] == rest;
  }

  /** Printed forms tokenize to their tokens. */
  lemma {:induction false} PrintTokens(form: SExpr, rest: string)
    ensures Tokens(Print(form) + rest) == Flatten(form) + Tokens(rest)
  {
    match form
    case Atom(text) => QuoteIsOneToken(text, rest);
    case List(items) =>
      assert Print(form) + rest == "(" + (PrintAll(items) + (")" + rest));
      ParenthesisIsOneToken('(', PrintAll(items) + (")" + rest));
      PrintAllTokens(items, ")" + rest);
      ParenthesisIsOneToken(')', rest);
  }

  lemma PrintSplits(forms: seq<SExpr>, rest: string)
    requires |forms| > 1
    ensures PrintAll(forms) + rest == Print(forms[0]) + (" " + (PrintAll(forms[1..]) + rest))
  {
  }

  lemma FewForms(forms: seq<SExpr>, rest: string)
    requires |forms| <= 1
    ensures PrintAll(forms) + rest == if forms == [] then rest else Print(forms[0]) + rest
    ensures FlattenAll(forms) == if forms == [] then [] else Flatten(forms[0])
  {
    if forms != [] { assert forms[1..] == []; }
  }

  lemma {:induction false} PrintAllTokens(forms: seq<SExpr>, rest: string)
    ensures Tokens(PrintAll(forms) + rest) == FlattenAll(forms) + Tokens(rest)
  {
    if |forms| <= 1 {
      FewForms(forms, rest);
      if forms != [] { PrintTokens(forms[0], rest); }
    } else {
      PrintSplits(forms, rest);
      PrintTokens(forms[0], " " + (PrintAll(forms[1..]) + rest));
      SpaceIsNoToken(PrintAll(forms[1..]) + rest);
      PrintAllTokens(forms[1..], rest);
    }
  }

  /** No atom inside a list is a parenthesis. */
  predicate Nested(form: SExpr) {
    match form
    case Atom(text) => text != "(" && text != ")"
    case List(items) => forall item | item in items :: Nested(item)
  }

  /** The forms that a reader can return: no atom is an opening parenthesis, and none inside a list a closing one. */
  predicate Readable(form: SExpr) {
    if form.Atom? then form.text != "(" else Nested(form)
  }

  lemma {:induction false} NestedReads(form: SExpr, rest: seq<string>)
    requires Readable(form)
    ensures One(Flatten(form) + rest).Some? && One(Flatten(form) + rest).value.0 == form
            && One(Flatten(form) + rest).value.1 == rest
    decreases form, 0
  {
    var toks := Flatten(form) + rest;
    match form
    case Atom(text) => assert toks[1..] == rest;
    case List(items) =>
      assert toks[1..] == FlattenAll(items) + ([")"] + rest);
      ItemsRead(items, rest);
  }

  lemma {:induction false} ItemsRead(items: seq<SExpr>, rest: seq<string>)
    requires forall item :: item in items ==> Nested(item)
    ensures var r := Items(FlattenAll(items) + ([")"] + rest)); r.Some? && r.value.0 == items && r.value.1 == rest
    decreases items, 1
  {
    var toks := FlattenAll(items) + ([")"] + rest);
    if items == [] {
      assert toks == [")"] + rest && toks[1..] == rest;
    } else {
      var others := FlattenAll(items[1..]) + ([")"] + rest);
      assert toks == Flatten(items[0]) + others;
      assert items[0] in items && Readable(items[0]);
      NestedReads(items[0], others);
      ItemsRead(items[1..], rest);
      assert toks[0] != ")";
      assert items == [items[0]] + items[1..];
    }
  }

  lemma {:induction false} FormsRead(forms: seq<SExpr>)
    requires forall form :: form in forms ==> Readable(form)
    ensures Forms(FlattenAll(forms)).Some? && Forms(FlattenAll(forms)).value == forms
  {
    if forms != [] {
      NestedReads(forms[0], FlattenAll(forms[1..]));
      FormsRead(forms[1..]);
      assert forms == [forms[0]] + forms[1..];
    }
  }

  // ----- What a reader returns is readable

  lemma {:induction false} OneIsReadable(toks: seq<string>)
    requires One(toks).Some?
    ensures Readable(One(toks).value.0) && (toks[0] != ")" ==> Nested(One(toks).value.0))
    decreases |toks|, 0
  {
    if toks[0] == "(" { ItemsAreNested(toks[1..]); }
  }

  lemma {:induction false} ItemsAreNested(toks: seq<string>)
    requires Items(toks).Some?
    ensures forall item :: item in Items(toks).value.0 ==> Nested(item)
    decreases |toks|, 1
  {
    if toks[0] != ")" {
      OneIsReadable(toks);
      ItemsAreNested(One(toks).value.1);
    }
  }

  lemma {:induction false} FormsAreReadable(toks: seq<string>)
    requires Forms(toks).Some?
    ensures forall form :: form in Forms(toks).value ==> Readable(form)
    decreases |toks|
  {
    if toks != [] {
      OneIsReadable(toks);
      FormsAreReadable(One(toks).value.1);
    }
  }

  /** Reading printed forms gives them back exactly when no atom is mistaken for a parenthesis. */
  lemma PrintReadsBack(forms: seq<SExpr>)
    ensures Forms(Tokens(PrintAll(forms))) == Some(forms) <==> forall form :: form in forms ==> Readable(form)
  {
    PrintAllTokens(forms, "");
    assert PrintAll(forms) + "" == PrintAll(forms);
    assert FlattenAll(forms) + Tokens("") == FlattenAll(forms);
    if Forms(FlattenAll(forms)) == Some(forms) { FormsAreReadable(FlattenAll(forms)); }
    if forall form :: form in forms ==> Readable(form) { FormsRead(forms); }
  }

  /** A list that holds a quoted opening parenthesis is one form when printed, and cannot be read back. */
  lemma ParenthesisIsLost()
    ensures Forms(Tokens(PrintAll([List([Atom("(")])]))) == None
  {
    var form := List([Atom("(")]);
    PrintAllTokens([form], "");
    assert PrintAll([form]) + "" == PrintAll([form]);
    assert Flatten(form) == ["(", "(", ")"];
    assert FlattenAll([form]) + Tokens("") == ["(", "(", ")"];
  }
}
