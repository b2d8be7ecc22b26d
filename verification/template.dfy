/**
 * Named-placeholder templates, the part of Python's `str.format(**vars)` that response
 * templates use: literal text, the escapes `{{` and `}}`, and `{name}` fields replaced by
 * `str()` of the named variable. Rendering fails (Python raises) on an unknown name or an
 * unbalanced brace. Every other field form — an empty or numeric (positional) field, a
 * conversion `!r`, a format spec `:>5`, attribute or index access `a.b`, `a[0]` — is outside
 * this language and is treated as a failed substitution.
 */
module Template {
  import opened Wrappers
  import opened Values

  /** One unit of a parsed template: a literal character or a named field. */
  datatype Piece = Lit(c: char) | Field(name: string)

  predicate AllDigits(s: string) {
    forall i :: 0 <= i < |s| ==> '0' <= s[i] <= '9'
  }

  /** A field name looked up as a keyword argument: non-empty, not an integer, and free of
      the characters that open a conversion, a format spec, an attribute or index access,
      or a nested field. */
  predicate IsPlainName(name: string) {
    && |name| > 0
    && !AllDigits(name)
    && forall i :: 0 <= i < |name| ==> name[i] !in "{}:!.["
  }

  predicate PlainPieces(ps: seq<Piece>) {
    forall i :: 0 <= i < |ps| && ps[i].Field? ==> IsPlainName(ps[i].name)
  }

  /** The names of the fields a parsed template refers to. */
  function FieldNames(ps: seq<Piece>): set<string> {
    if ps == [] then {}
    else (if ps[0].Field? then {ps[0].name} else {}) + FieldNames(ps[1..])
  }

  /** The position of the first `}` in `s`, if any. */
  function FindClose(s: string): (r: Option<nat>)
    ensures r.Some? ==> r.value < |s| && s[r.value] == '}' && '}' !in s[..r.value]
    ensures r.None? ==> '}' !in s
  {
    if s == [] then None
    else if s[0] == '}' then Some(0)
    else
      match FindClose(s[1..])
      case None => None
      case Some(j) =>
        assert s[..j + 1] == [s[0]] + s[1..][..j];
        Some(j + 1)
  }

  function Prepend(p: Piece, r: Option<seq<Piece>>): Option<seq<Piece>> {
    match r
    case None => None
    case Some(ps) => Some([p] + ps)
  }

  /** Splits a template into pieces; `None` when Python would raise while parsing it. */
  function Parse(t: string): (r: Option<seq<Piece>>)
    ensures r.Some? ==> PlainPieces(r.value)
    decreases |t|
  {
    if t == [] then Some([])
    else if |t| >= 2 && t[0] == t[1] && (t[0] == '{' || t[0] == '}') then
      Prepend(Lit(t[0]), Parse(t[2..]))
    else if t[0] == '}' then
      None  // a single '}'
    else if t[0] == '{' then
      match FindClose(t[1..])
      case None => None  // a '{' that is never closed
      case Some(j) =>
        var name := t[1..j + 1];
        if IsPlainName(name) then Prepend(Field(name), Parse(t[j + 2..])) else None
    else
      Prepend(Lit(t[0]), Parse(t[1..]))
  }

  function PieceText(p: Piece): string {
    match p
    case Lit(c) => if c == '{' || c == '}' then [c, c] else [c]
    case Field(name) => "{" + name + "}"
  }

  /** The template text a sequence of pieces is written as. */
  function Unparse(ps: seq<Piece>): string {
    if ps == [] then "" else PieceText(ps[0]) + Unparse(ps[1..])
  }

  /** Joins two partial renderings; fails when either part failed. */
  function Join(x: Option<string>, y: Option<string>): Option<string> {
    if x.Some? && y.Some? then Some(x.value + y.value) else None
  }

  /** `str()` of a literal or of the named variable; `None` (Python's `KeyError`) when the
      field names no variable. */
  function SubstitutePiece(p: Piece, vars: map<string, Value>): Option<string> {
    match p
    case Lit(c) => Some([c])
    case Field(name) => if name in vars then Some(ToString(vars[name])) else None
  }

  /** Fills in the fields; fails exactly when some field names no variable. */
  function Substitute(ps: seq<Piece>, vars: map<string, Value>): (r: Option<string>)
    ensures r.Some? <==> FieldNames(ps) <= vars.Keys
  {
    if ps == [] then Some("")
    else Join(SubstitutePiece(ps[0], vars), Substitute(ps[1..], vars))
  }

  /** `template.format(**vars)`; `None` when it raises. */
  function Render(t: string, vars: map<string, Value>): (r: Option<string>)
    ensures r.Some? <==> Parse(t).Some? && FieldNames(Parse(t).value) <= vars.Keys
  {
    match Parse(t)
    case None => None
    case Some(ps) => Substitute(ps, vars)
  }

  /** The pieces that stand for the literal text `s`. */
  function Literal(s: string): seq<Piece> {
    seq(|s|, i requires 0 <= i < |s| => Lit(s[i]))
  }

  /** Template text that renders as `s`: every brace doubled. */
  function Escape(s: string): string {
    Unparse(Literal(s))
  }

  lemma {:induction false} FindCloseAt(name: string, rest: string)
    requires '}' !in name
    ensures FindClose(name + "}" + rest) == Some(|name|)
  {
    if name != [] {
      assert (name + "}" + rest)[1..] == name[1..] + "}" + rest;
      FindCloseAt(name[1..], rest);
    }
  }

  lemma ParseLitPiece(c: char, tail: string)
    ensures Parse(PieceText(Lit(c)) + tail) == Prepend(Lit(c), Parse(tail))
  {
    var s := PieceText(Lit(c)) + tail;
    if c == '{' || c == '}' {
      assert s[0] == s[1] == c;
      assert s[2..] == tail;
    } else {
      assert s[0] == c;
      assert s[1..] == tail;
    }
  }

  lemma ParseFieldPiece(name: string, tail: string)
    requires IsPlainName(name)
    ensures Parse(PieceText(Field(name)) + tail) == Prepend(Field(name), Parse(tail))
  {
    var s := "{" + name + "}" + tail;
    assert s[0] == '{' && s[1] == name[0] != '{';
    assert s[1..] == name + "}" + tail;
    FindCloseAt(name, tail);
    assert s[1..|name| + 1] == name;
    assert s[|name| + 2..] == tail;
  }

  /** Parsing reads the text of one well-formed piece back as that piece. */
  lemma ParsePiece(p: Piece, tail: string)
    requires p.Field? ==> IsPlainName(p.name)
    ensures Parse(PieceText(p) + tail) == Prepend(p, Parse(tail))
  {
    match p
    case Lit(c) => ParseLitPiece(c, tail);
    case Field(name) => ParseFieldPiece(name, tail);
  }

  function Extend(ps: seq<Piece>, r: Option<seq<Piece>>): Option<seq<Piece>> {
    match r
    case None => None
    case Some(qs) => Some(ps + qs)
  }

  lemma PlainTail(ps: seq<Piece>)
    requires ps != [] && PlainPieces(ps)
    ensures PlainPieces(ps[1..]) && (ps[0].Field? ==> IsPlainName(ps[0].name))
  {
    forall i | 0 <= i < |ps[1..]| && ps[1..][i].Field?
      ensures IsPlainName(ps[1..][i].name)
    {
      assert ps[1..][i] == ps[i + 1];
    }
  }

  lemma PrependExtend(ps: seq<Piece>, r: Option<seq<Piece>>)
    requires ps != []
    ensures Prepend(ps[0], Extend(ps[1..], r)) == Extend(ps, r)
  {
    if r.Some? {
      assert [ps[0]] + (ps[1..] + r.value) == ps + r.value;
    }
  }

  lemma ParseConcatStep(ps: seq<Piece>, t: string)
    requires ps != [] && (ps[0].Field? ==> IsPlainName(ps[0].name))
    requires Parse(Unparse(ps[1..]) + t) == Extend(ps[1..], Parse(t))
    ensures Parse(Unparse(ps) + t) == Extend(ps, Parse(t))
  {
    var tail := Unparse(ps[1..]) + t;
    assert Unparse(ps) + t == PieceText(ps[0]) + tail;
    ParsePiece(ps[0], tail);
    PrependExtend(ps, Parse(t));
  }

  /** Parsing reads the text of well-formed pieces back as those pieces, whatever follows. */
  lemma {:induction false} ParseConcat(ps: seq<Piece>, t: string)
    requires PlainPieces(ps)
    ensures Parse(Unparse(ps) + t) == Extend(ps, Parse(t))
  {
    if ps != [] {
      PlainTail(ps);
      ParseConcat(ps[1..], t);
      ParseConcatStep(ps, t);
    } else {
      assert Unparse(ps) + t == t;
      if Parse(t).Some? {
        assert ps + Parse(t).value == Parse(t).value;
      }
    }
  }

  /** Parsing inverts writing: well-formed pieces survive a round trip through text. */
  lemma ParseUnparse(ps: seq<Piece>)
    requires PlainPieces(ps)
    ensures Parse(Unparse(ps)) == Some(ps)
  {
    ParseConcat(ps, "");
    assert Unparse(ps) + "" == Unparse(ps);
    assert Parse("") == Some([]);
    assert ps + [] == ps;
  }

  lemma UnparseCons(p: Piece, rest: seq<Piece>)
    ensures Unparse([p] + rest) == PieceText(p) + Unparse(rest)
  {
    assert ([p] + rest)[1..] == rest;
  }

  lemma ParseFieldBranch(t: string, j: nat)
    requires t != [] && t[0] == '{' && !(|t| >= 2 && t[1] == '{')
    requires FindClose(t[1..]) == Some(j)
    ensures Parse(t) == if IsPlainName(t[1..j + 1]) then Prepend(Field(t[1..j + 1]), Parse(t[j + 2..])) else None
  {
  }

  lemma UnparseFieldText(t: string, j: nat, rest: seq<Piece>)
    requires 2 <= j + 2 <= |t| && t[0] == '{' && t[j + 1] == '}'
    requires Unparse(rest) == t[j + 2..]
    ensures Unparse([Field(t[1..j + 1])] + rest) == t
  {
    var name := t[1..j + 1];
    UnparseCons(Field(name), rest);
    FieldTextSplit(t, j);
  }

  /** A text that opens with `{` and has a `}` at `j + 1` splits around the name between them. */
  lemma FieldTextSplit(t: string, j: nat)
    requires 2 <= j + 2 <= |t| && t[0] == '{' && t[j + 1] == '}'
    ensures t == "{" + t[1..j + 1] + "}" + t[j + 2..]
  {
    assert t == [t[0]] + t[1..];
    assert t[1..] == t[1..j + 1] + t[j + 1..];
    assert t[j + 1..] == [t[j + 1]] + t[j + 2..];
  }

  /** Writing inverts parsing: every template that parses is the text of its pieces. */
  lemma {:induction false} UnparseParse(t: string)
    requires Parse(t).Some?
    ensures Unparse(Parse(t).value) == t
    decreases |t|
  {
    if t == [] {
    } else if |t| >= 2 && t[0] == t[1] && (t[0] == '{' || t[0] == '}') {
      UnparseParse(t[2..]);
      UnparseCons(Lit(t[0]), Parse(t[2..]).value);
      assert t == [t[0], t[0]] + t[2..];
    } else if t[0] == '{' {
      var j := FindClose(t[1..]).value;
      ParseFieldBranch(t, j);
      UnparseParse(t[j + 2..]);
      assert t[j + 1] == t[1..][j];
      UnparseFieldText(t, j, Parse(t[j + 2..]).value);
    } else {
      UnparseParse(t[1..]);
      UnparseCons(Lit(t[0]), Parse(t[1..]).value);
      assert t == [t[0]] + t[1..];
    }
  }

  lemma {:induction false} UnparseAppend(a: seq<Piece>, b: seq<Piece>)
    ensures Unparse(a + b) == Unparse(a) + Unparse(b)
  {
    if a != [] {
      assert (a + b)[1..] == a[1..] + b;
      UnparseAppend(a[1..], b);
    } else {
      assert a + b == b;
    }
  }

  /** Substitution works piece by piece: a concatenation renders as the concatenation of the
      renderings, and fails when either part fails. */
  lemma {:induction false} SubstituteAppend(a: seq<Piece>, b: seq<Piece>, vars: map<string, Value>)
    ensures Substitute(a + b, vars) == Join(Substitute(a, vars), Substitute(b, vars))
  {
    if a == [] {
      assert a + b == b;
      if Substitute(b, vars).Some? {
        assert "" + Substitute(b, vars).value == Substitute(b, vars).value;
      }
    } else {
      assert (a + b)[1..] == a[1..] + b;
      assert (a + b)[0] == a[0];
      SubstituteAppend(a[1..], b, vars);
      var h, x, y := SubstitutePiece(a[0], vars), Substitute(a[1..], vars), Substitute(b, vars);
      if h.Some? && x.Some? && y.Some? {
        assert h.value + (x.value + y.value) == (h.value + x.value) + y.value;
      }
    }
  }

  lemma {:induction false} SubstituteLiteral(s: string, vars: map<string, Value>)
    ensures Substitute(Literal(s), vars) == Some(s)
  {
    if s != [] {
      assert Literal(s)[1..] == Literal(s[1..]);
      SubstituteLiteral(s[1..], vars);
      assert s == [s[0]] + s[1..];
    }
  }

  /** Text without braces is its own escaped form. */
  lemma {:induction false} EscapeBraceFree(s: string)
    requires '{' !in s && '}' !in s
    ensures Escape(s) == s
  {
    if s != [] {
      assert Literal(s)[1..] == Literal(s[1..]);
      EscapeBraceFree(s[1..]);
      assert s == [s[0]] + s[1..];
    }
  }

  /** Escaped literal text renders as itself under any variables. */
  lemma RenderEscaped(s: string, vars: map<string, Value>)
    ensures Render(Escape(s), vars) == Some(s)
  {
    ParseUnparse(Literal(s));
    SubstituteLiteral(s, vars);
  }

  function OneField(before: string, name: string, after: string): seq<Piece> {
    Literal(before) + [Field(name)] + Literal(after)
  }

  lemma OneFieldText(before: string, name: string, after: string)
    requires IsPlainName(name)
    ensures PlainPieces(OneField(before, name, after))
    ensures Unparse(OneField(before, name, after)) == Escape(before) + "{" + name + "}" + Escape(after)
  {
    var ps := OneField(before, name, after);
    forall i | 0 <= i < |ps| && ps[i].Field?
      ensures IsPlainName(ps[i].name)
    {
      assert i == |before|;
    }
    UnparseAppend(Literal(before), [Field(name)]);
    UnparseAppend(Literal(before) + [Field(name)], Literal(after));
    assert [Field(name)][1..] == [];
    assert Unparse([Field(name)]) == "{" + name + "}" + "";
  }

  lemma OneFieldSubstitute(before: string, name: string, after: string, vars: map<string, Value>)
    ensures Substitute(OneField(before, name, after), vars) ==
      if name in vars then Some(before + ToString(vars[name]) + after) else None
  {
    SubstituteAppend(Literal(before), [Field(name)], vars);
    SubstituteAppend(Literal(before) + [Field(name)], Literal(after), vars);
    SubstituteLiteral(before, vars);
    SubstituteLiteral(after, vars);
    assert Substitute([Field(name)], vars) == SubstitutePiece(Field(name), vars) by {
      assert [Field(name)][1..] == [];
      if name in vars {
        assert ToString(vars[name]) + "" == ToString(vars[name]);
      }
    }
  }

  /** A template with one field renders as `str()` of that variable between the surrounding
      text when the variable exists, and fails when it does not. */
  lemma RenderOneField(before: string, name: string, after: string, vars: map<string, Value>)
    requires IsPlainName(name)
    ensures Render(Escape(before) + "{" + name + "}" + Escape(after), vars) ==
      if name in vars then Some(before + ToString(vars[name]) + after) else None
  {
    OneFieldText(before, name, after);
    ParseUnparse(OneField(before, name, after));
    OneFieldSubstitute(before, name, after, vars);
  }

  /** A `{` that is never closed makes rendering fail. The `{` is not the first half of a
      `{{` escape, and no `}` follows it. */
  lemma UnclosedFieldFails(before: string, after: string, vars: map<string, Value>)
    requires '}' !in after && (after == [] || after[0] != '{')
    ensures Render(Escape(before) + "{" + after, vars) == None
  {
    var t := "{" + after;
    assert t[1..] == after;
    assert Parse(t) == None;
    ParseConcat(Literal(before), t);
    assert Escape(before) + "{" + after == Unparse(Literal(before)) + t;
  }

  /** A single `}` (one not doubled) makes rendering fail. */
  lemma StrayCloseFails(before: string, after: string, vars: map<string, Value>)
    requires after == [] || after[0] != '}'
    ensures Render(Escape(before) + "}" + after, vars) == None
  {
    var t := "}" + after;
    assert Parse(t) == None;
    ParseConcat(Literal(before), t);
    assert Escape(before) + "}" + after == Unparse(Literal(before)) + t;
  }
}
