/**
 * The location name template: the subset of Python's `str.format` that
 * location name formats use. Literal text is copied, `{{` and `}}` stand
 * for single braces, `{field}` inserts the value of a field and
 * `{field:0>N}` inserts it right-aligned and padded with `0` to width N.
 * Field values come from a flat map from field name to text, never from a
 * live record.
 */
module NameFormat {
  import opened Wrappers

  /** Why a template could not be rendered. */
  datatype RenderError =
    | MissingField(field: string)  // the template names a field the map lacks (Python's KeyError)
    | MalformedTemplate            // a single `{` or `}`, or a field left open (Python's ValueError)
    | UnsupportedSpec              // a conversion, attribute access or format spec outside the subset

  predicate IsDigit(c: char) {
    '0' <= c <= '9'
  }

  /** Characters that may appear in a plain field name. */
  predicate IsNameChar(c: char) {
    c !in "{}:!.["
  }

  /** The length of the longest prefix of `s` whose characters all satisfy `p`. */
  function SpanLength(s: string, p: char -> bool): (k: nat)
    ensures k <= |s|
    ensures forall i | 0 <= i < k :: p(s[i])
    ensures k < |s| ==> !p(s[k])
  {
    if s == [] || !p(s[0]) then 0 else 1 + SpanLength(s[1..], p)
  }

  lemma {:induction false} SpanOfConcat(a: string, b: string, p: char -> bool)
    requires forall i | 0 <= i < |a| :: p(a[i])
    requires b != [] && !p(b[0])
    ensures SpanLength(a + b, p) == |a|
  {
    if a != [] {
      assert (a + b)[1..] == a[1..] + b;
      SpanOfConcat(a[1..], b, p);
    }
  }

  function DigitChar(d: nat): (c: char)
    requires d < 10
    ensures IsDigit(c)
  {
    ('0' as int + d) as char
  }

  /** The decimal digits of `n`, as Python's `str` writes them. */
  function NatToDecimal(n: nat): (s: string)
    ensures |s| >= 1 && forall i | 0 <= i < |s| :: IsDigit(s[i])
    ensures s[0] == '0' ==> n == 0
    ensures n == 0 ==> s == "0"
  {
    if n < 10 then [DigitChar(n)] else NatToDecimal(n / 10) + [DigitChar(n % 10)]
  }

  /** The number a string of decimal digits denotes (the width of a spec). */
  function DecimalValue(s: string): nat
    requires forall i | 0 <= i < |s| :: IsDigit(s[i])
  {
    if s == [] then 0
    else
      assert IsDigit(s[|s| - 1]);
      10 * DecimalValue(s[..|s| - 1]) + (s[|s| - 1] as int - '0' as int)
  }

  lemma {:induction false} DecimalRoundTrip(n: nat)
    ensures DecimalValue(NatToDecimal(n)) == n
  {
    if n >= 10 {
      var s := NatToDecimal(n);
      assert s[..|s| - 1] == NatToDecimal(n / 10);
      DecimalRoundTrip(n / 10);
    }
  }

  /** Python's `str` of an integer: a minus sign for a negative number, then its digits. */
  function IntToDecimal(i: int): (s: string)
    ensures |s| >= 1
    ensures s[0] == '-' <==> i < 0
    ensures forall j | 0 < j < |s| :: IsDigit(s[j])
    ensures i < 0 ==> (forall j | 0 <= j < |s| - 1 :: IsDigit(s[1..][j])) && DecimalValue(s[1..]) == -i
    ensures i >= 0 ==> (forall j | 0 <= j < |s| :: IsDigit(s[j])) && DecimalValue(s) == i
    ensures i >= 0 && s[0] == '0' ==> i == 0
    ensures i == 0 ==> s == "0"
    ensures i < 0 ==> |s| >= 2 && s[1] != '0'
  {
    DecimalRoundTrip(if i < 0 then -i else i);
    if i < 0 then "-" + NatToDecimal(-i) else NatToDecimal(i)
  }

  /** Right-align `s` in a field of `width` characters, filling on the left with `fill`. */
  function PadLeft(s: string, fill: char, width: nat): (r: string)
    ensures |r| == if |s| < width then width else |s|
    ensures r[|r| - |s|..] == s
    ensures forall i | 0 <= i < |r| - |s| :: r[i] == fill
  {
    if |s| < width then seq(width - |s|, _ => fill) + s else s
  }

  /** A replacement field that has been read: its name, its width and the text after it. */
  datatype FieldRef = FieldRef(name: string, width: nat, rest: string)

  /** Read a replacement field from `s`, the text that follows its opening `{`. */
  function ParseField(s: string): (r: Result<FieldRef, RenderError>)
    ensures r.Ok? ==> |r.value.rest| < |s| && s[|s| - |r.value.rest| - 1] == '}'
  {
    var k := SpanLength(s, IsNameChar);
    if k == |s| then Err(MalformedTemplate)
    else if s[k] == '}' then Ok(FieldRef(s[..k], 0, s[k + 1..]))
    else if s[k] == ':' then ParseSpec(s[..k], s[k + 1..])
    else if s[k] == '{' then Err(MalformedTemplate)
    else Err(UnsupportedSpec)
  }

  /** Read the format spec of field `name` from `spec`, the text after its `:`; only `0>N` is supported. */
  function ParseSpec(name: string, spec: string): (r: Result<FieldRef, RenderError>)
    ensures r.Ok? ==> |r.value.rest| < |spec| && spec[|spec| - |r.value.rest| - 1] == '}'
  {
    if '}' !in spec then Err(MalformedTemplate)
    else if |spec| < 2 || spec[0] != '0' || spec[1] != '>' then Err(UnsupportedSpec)
    else
      var d := SpanLength(spec[2..], IsDigit);
      assert 2 + d < |spec| by {
        var j :| 0 <= j < |spec| && spec[j] == '}';
        assert spec[2..][j - 2] == '}';
      }
      if spec[2 + d] != '}' then Err(UnsupportedSpec)
      else
        var digits := spec[2..2 + d];
        assert forall i | 0 <= i < d :: digits[i] == spec[2..][i];
        Ok(FieldRef(name, DecimalValue(digits), spec[3 + d..]))
  }

  function Prepend(s: string, r: Result<string, RenderError>): Result<string, RenderError> {
    match r
    case Ok(v) => Ok(s + v)
    case Err(e) => Err(e)
  }

  /**
   * Render template `t` against `fields`, left to right; the first error
   * met is the one reported.
   */
  function Render(t: string, fields: map<string, string>): (r: Result<string, RenderError>)
    ensures r.Ok? ==> FieldsUsed(t) <= fields.Keys
    ensures r.Err? && r.error.MissingField? ==> r.error.field in FieldsUsed(t) && r.error.field !in fields
    decreases |t|
  {
    if t == [] then Ok([])
    else if t[0] == '{' && |t| > 1 && t[1] == '{' then Prepend("{", Render(t[2..], fields))
    else if t[0] == '{' then
      match ParseField(t[1..])
      case Err(e) => Err(e)
      case Ok(f) =>
        if f.name !in fields then Err(MissingField(f.name))
        else Prepend(PadLeft(fields[f.name], '0', f.width), Render(f.rest, fields))
    else if t[0] == '}' && |t| > 1 && t[1] == '}' then Prepend("}", Render(t[2..], fields))
    else if t[0] == '}' then Err(MalformedTemplate)
    else Prepend([t[0]], Render(t[1..], fields))
  }

  /**
   * The names of the replacement fields `Render` reads in `t`, up to the
   * first malformed field.
   */
  function FieldsUsed(t: string): set<string>
    decreases |t|
  {
    if t == [] then {}
    else if t[0] == '{' && |t| > 1 && t[1] == '{' then FieldsUsed(t[2..])
    else if t[0] == '{' then
      match ParseField(t[1..])
      case Err(_) => {}
      case Ok(f) => {f.name} + FieldsUsed(f.rest)
    else if t[0] == '}' && |t| > 1 && t[1] == '}' then FieldsUsed(t[2..])
    else if t[0] == '}' then {}
    else FieldsUsed(t[1..])
  }

  /** Rendering reads only the fields the template names: a field it does not name may take any value. */
  lemma {:induction false} RenderIgnoresUnusedField(t: string, fields: map<string, string>, k: string, v: string)
    requires k !in FieldsUsed(t)
    ensures Render(t, fields[k := v]) == Render(t, fields)
    decreases |t|
  {
    if t == [] {
    } else if t[0] == '{' && |t| > 1 && t[1] == '{' {
      RenderIgnoresUnusedField(t[2..], fields, k, v);
    } else if t[0] == '{' {
      match ParseField(t[1..])
      case Err(_) =>
      case Ok(f) => RenderIgnoresUnusedField(f.rest, fields, k, v);
    } else if t[0] == '}' && |t| > 1 && t[1] == '}' {
      RenderIgnoresUnusedField(t[2..], fields, k, v);
    } else if t[0] == '}' {
    } else {
      RenderIgnoresUnusedField(t[1..], fields, k, v);
    }
  }

  /** Text without braces renders as itself, whatever the field values. */
  lemma {:induction false} RenderLiteral(t: string, fields: map<string, string>)
    requires forall i | 0 <= i < |t| :: t[i] != '{' && t[i] != '}'
    ensures Render(t, fields) == Ok(t)
  {
    if t != [] {
      RenderLiteral(t[1..], fields);
      assert [t[0]] + t[1..] == t;
    }
  }

  /** A template as a sequence of pieces: one literal character, or a field with a width (0: no padding). */
  datatype Piece = Char(c: char) | Slot(field: string, width: nat)

  predicate ValidPiece(p: Piece) {
    p.Slot? ==> forall i | 0 <= i < |p.field| :: IsNameChar(p.field[i])
  }

  function UnparsePiece(p: Piece): string {
    match p
    case Char(c) => if c == '{' || c == '}' then [c, c] else [c]
    case Slot(f, w) => "{" + f + (if w == 0 then "" else ":0>" + NatToDecimal(w)) + "}"
  }

  /** The template text that denotes the pieces `ps`. */
  function Unparse(ps: seq<Piece>): string {
    if ps == [] then "" else UnparsePiece(ps[0]) + Unparse(ps[1..])
  }

  /** Reference meaning of a template: substitute the pieces one after another. */
  function Substitute(ps: seq<Piece>, fields: map<string, string>): (r: Result<string, RenderError>)
    ensures r.Err? <==> exists i | 0 <= i < |ps| :: ps[i].Slot? && ps[i].field !in fields
  {
    if ps == [] then Ok("")
    else match ps[0]
      case Char(c) => Prepend([c], Substitute(ps[1..], fields))
      case Slot(f, w) =>
        if f !in fields then Err(MissingField(f))
        else Prepend(PadLeft(fields[f], '0', w), Substitute(ps[1..], fields))
  }

  lemma ParseWidth(f: string, w: nat, rest: string)
    requires w > 0
    ensures ParseSpec(f, "0>" + NatToDecimal(w) + "}" + rest) == Ok(FieldRef(f, w, rest))
  {
    var ds := NatToDecimal(w);
    var spec := "0>" + ds + "}" + rest;
    assert spec[2..] == ds + ("}" + rest);
    SpanOfConcat(ds, "}" + rest, IsDigit);
    assert spec[2 + |ds|] == '}';
    assert '}' in spec;
    assert spec[2..2 + |ds|] == ds;
    DecimalRoundTrip(w);
    assert spec[3 + |ds|..] == rest;
  }

  /** A field name followed by a character that cannot be part of a name. */
  lemma ParseName(f: string, tail: string, s: string)
    requires forall i | 0 <= i < |f| :: IsNameChar(f[i])
    requires tail != [] && !IsNameChar(tail[0])
    requires s == f + tail
    ensures SpanLength(s, IsNameChar) == |f|
    ensures s[..|f|] == f && s[|f|] == tail[0] && s[|f| + 1..] == tail[1..]
  {
    SpanOfConcat(f, tail, IsNameChar);
  }

  lemma ParseBareSlot(f: string, rest: string, s: string)
    requires forall i | 0 <= i < |f| :: IsNameChar(f[i])
    requires s == f + ("}" + rest)
    ensures ParseField(s) == Ok(FieldRef(f, 0, rest))
  {
    ParseName(f, "}" + rest, s);
  }

  lemma ParseWidthSlot(f: string, w: nat, rest: string, s: string)
    requires forall i | 0 <= i < |f| :: IsNameChar(f[i])
    requires w > 0
    requires s == f + (":" + ("0>" + NatToDecimal(w) + "}" + rest))
    ensures ParseField(s) == Ok(FieldRef(f, w, rest))
  {
    var spec := "0>" + NatToDecimal(w) + "}" + rest;
    ParseName(f, ":" + spec, s);
    assert s[|f| + 1..] == spec;
    assert ParseField(s) == ParseSpec(f, spec);
    ParseWidth(f, w, rest);
  }

  lemma ParseSlot(f: string, w: nat, rest: string, s: string)
    requires ValidPiece(Slot(f, w))
    requires s == UnparsePiece(Slot(f, w))[1..] + rest
    ensures ParseField(s) == Ok(FieldRef(f, w, rest))
  {
    var u := UnparsePiece(Slot(f, w));
    if w == 0 {
      assert u[1..] == f + "}";
      assert s == f + ("}" + rest);
      ParseBareSlot(f, rest, s);
    } else {
      assert u[1..] == f + (":" + ("0>" + NatToDecimal(w) + "}"));
      assert s == f + (":" + ("0>" + NatToDecimal(w) + "}" + rest));
      ParseWidthSlot(f, w, rest, s);
    }
  }

  /** A `{` not followed by another `{` opens a replacement field. */
  lemma RenderField(t: string, fields: map<string, string>, f: FieldRef)
    requires |t| > 1 && t[0] == '{' && t[1] != '{'
    requires ParseField(t[1..]) == Ok(f)
    ensures Render(t, fields)
         == if f.name !in fields then Err(MissingField(f.name))
            else Prepend(PadLeft(fields[f.name], '0', f.width), Render(f.rest, fields))
  {
  }

  lemma RenderSlot(f: string, w: nat, rest: string, fields: map<string, string>)
    requires ValidPiece(Slot(f, w))
    ensures Render(UnparsePiece(Slot(f, w)) + rest, fields)
         == if f !in fields then Err(MissingField(f))
            else Prepend(PadLeft(fields[f], '0', w), Render(rest, fields))
  {
    var u := UnparsePiece(Slot(f, w));
    var t := u + rest;
    assert u[0] == '{';
    assert u[1] != '{' by {
      if f != [] {
        assert u[1] == f[0];
      }
    }
    assert t[1..] == u[1..] + rest;
    ParseSlot(f, w, rest, t[1..]);
    RenderField(t, fields, FieldRef(f, w, rest));
  }

  lemma RenderChar(c: char, rest: string, fields: map<string, string>)
    ensures Render(UnparsePiece(Char(c)) + rest, fields) == Prepend([c], Render(rest, fields))
  {
    var t := UnparsePiece(Char(c)) + rest;
    if c == '{' || c == '}' {
      assert t[2..] == rest;
    } else {
      assert t[1..] == rest;
    }
  }

  /** Rendering the text of a sequence of pieces is substituting the pieces. */
  lemma {:induction false} RenderUnparse(ps: seq<Piece>, fields: map<string, string>)
    requires forall i | 0 <= i < |ps| :: ValidPiece(ps[i])
    ensures Render(Unparse(ps), fields) == Substitute(ps, fields)
  {
    if ps != [] {
      RenderUnparse(ps[1..], fields);
      match ps[0]
      case Char(c) => RenderChar(c, Unparse(ps[1..]), fields);
      case Slot(f, w) => RenderSlot(f, w, Unparse(ps[1..]), fields);
    }
  }

  /** Substitution reads only the fields the pieces name: a field no slot names may take any value. */
  lemma {:induction false} SubstituteIgnoresUnusedField(ps: seq<Piece>, fields: map<string, string>, k: string, v: string)
    requires forall i | 0 <= i < |ps| :: !(ps[i].Slot? && ps[i].field == k)
    ensures Substitute(ps, fields[k := v]) == Substitute(ps, fields)
  {
    if ps != [] {
      SubstituteIgnoresUnusedField(ps[1..], fields, k, v);
    }
  }

  /** A format that starts with `{name}` and goes on with plain text puts the name in front of that text. */
  lemma RenderNameThenText(suffix: string, fields: map<string, string>)
    requires "name" in fields
    requires forall i | 0 <= i < |suffix| :: suffix[i] != '{' && suffix[i] != '}'
    ensures Render("{name}" + suffix, fields) == Ok(fields["name"] + suffix)
  {
    ValidFieldName("name");
    assert UnparsePiece(Slot("name", 0)) == "{name}";
    RenderSlot("name", 0, suffix, fields);
    RenderLiteral(suffix, fields);
  }

  /** The pieces of the name format the help text gives as its example. */
  function HelpTextPieces(): seq<Piece> {
    [Slot("area", 0), Char('-'), Slot("corridor", 2), Char('.'),
     Slot("rack", 3), Char('.'), Slot("level", 2)]
  }

  lemma UnparseAreaSlot()
    ensures UnparsePiece(Slot("area", 0)) == "{area}"
  {
  }

  lemma UnparseCorridorSlot()
    ensures UnparsePiece(Slot("corridor", 2)) == "{corridor:0>2}"
  {
    assert NatToDecimal(2) == "2";
  }

  lemma UnparseRackSlot()
    ensures UnparsePiece(Slot("rack", 3)) == "{rack:0>3}"
  {
    assert NatToDecimal(3) == "3";
  }

  lemma UnparseLevelSlot()
    ensures UnparsePiece(Slot("level", 2)) == "{level:0>2}"
  {
    assert NatToDecimal(2) == "2";
  }

  lemma {:induction false} UnparseSnoc(ps: seq<Piece>, p: Piece)
    ensures Unparse(ps + [p]) == Unparse(ps) + UnparsePiece(p)
  {
    if ps == [] {
      assert [] + [p] == [p];
      assert [p][1..] == [];
    } else {
      var head, tail := UnparsePiece(ps[0]), ps[1..];
      assert (ps + [p])[0] == ps[0];
      assert (ps + [p])[1..] == tail + [p];
      UnparseSnoc(tail, p);
      assert head + (Unparse(tail) + UnparsePiece(p)) == head + Unparse(tail) + UnparsePiece(p);
    }
  }

  lemma UnparseHelpText()
    ensures Unparse(HelpTextPieces()) == "{area}-{corridor:0>2}.{rack:0>3}.{level:0>2}"
  {
    UnparseAreaSlot();
    UnparseCorridorSlot();
    UnparseRackSlot();
    UnparseLevelSlot();
    var q1 := [] + [Slot("area", 0)];
    UnparseSnoc([], Slot("area", 0));
    var q2 := q1 + [Char('-')];
    UnparseSnoc(q1, Char('-'));
    var q3 := q2 + [Slot("corridor", 2)];
    UnparseSnoc(q2, Slot("corridor", 2));
    var q4 := q3 + [Char('.')];
    UnparseSnoc(q3, Char('.'));
    var q5 := q4 + [Slot("rack", 3)];
    UnparseSnoc(q4, Slot("rack", 3));
    var q6 := q5 + [Char('.')];
    UnparseSnoc(q5, Char('.'));
    var q7 := q6 + [Slot("level", 2)];
    UnparseSnoc(q6, Slot("level", 2));
    assert q7 == HelpTextPieces();
    assert Unparse([]) == "";
    HelpTextTemplateText();
  }

  lemma HelpTextTemplateText()
    ensures "" + "{area}" + "-" + "{corridor:0>2}" + "." + "{rack:0>3}" + "." + "{level:0>2}"
         == "{area}-{corridor:0>2}.{rack:0>3}.{level:0>2}"
  {
    HelpTextTemplateHead();
    HelpTextTemplateTail();
  }

  lemma HelpTextTemplateHead()
    ensures "" + "{area}" + "-" + "{corridor:0>2}" == "{area}-{corridor:0>2}"
  {
  }

  lemma HelpTextTemplateTail()
    ensures "{area}-{corridor:0>2}" + "." + "{rack:0>3}" + "." + "{level:0>2}"
         == "{area}-{corridor:0>2}.{rack:0>3}.{level:0>2}"
  {
  }

  lemma HelpTextResultText()
    ensures "A1" + ("-" + ("03" + ("." + ("012" + ("." + ("02" + "")))))) == "A1-03.012.02"
  {
  }

  lemma SubstituteCons(p: Piece, ps: seq<Piece>, fields: map<string, string>)
    requires p.Slot? ==> p.field in fields
    ensures Substitute([p] + ps, fields)
         == Prepend(if p.Char? then [p.c] else PadLeft(fields[p.field], '0', p.width), Substitute(ps, fields))
  {
    assert ([p] + ps)[1..] == ps;
  }

  lemma SubstituteHelpText(fields: map<string, string>)
    requires fields == map["area" := "A1", "corridor" := "3", "rack" := "12", "level" := "2"]
    ensures Substitute(HelpTextPieces(), fields) == Ok("A1-03.012.02")
  {
    assert fields["area"] == "A1" && fields["corridor"] == "3" && fields["rack"] == "12" && fields["level"] == "2";
    assert PadLeft("2", '0', 2) == "02";
    assert PadLeft("12", '0', 3) == "012";
    assert PadLeft("3", '0', 2) == "03";
    var p6 := [Slot("level", 2)];
    SubstituteCons(Slot("level", 2), [], fields);
    assert [Slot("level", 2)] + [] == p6;
    var p5 := [Char('.')] + p6;
    SubstituteCons(Char('.'), p6, fields);
    var p4 := [Slot("rack", 3)] + p5;
    SubstituteCons(Slot("rack", 3), p5, fields);
    var p3 := [Char('.')] + p4;
    SubstituteCons(Char('.'), p4, fields);
    var p2 := [Slot("corridor", 2)] + p3;
    SubstituteCons(Slot("corridor", 2), p3, fields);
    var p1 := [Char('-')] + p2;
    SubstituteCons(Char('-'), p2, fields);
    var p0 := [Slot("area", 0)] + p1;
    SubstituteCons(Slot("area", 0), p1, fields);
    assert p0 == HelpTextPieces();
    HelpTextResultText();
  }

  lemma HelpTextPiecesValid()
    ensures forall i | 0 <= i < |HelpTextPieces()| :: ValidPiece(HelpTextPieces()[i])
  {
    ValidFieldName("area");
    ValidFieldName("corridor");
    ValidFieldName("rack");
    ValidFieldName("level");
  }

  lemma ValidFieldName(f: string)
    requires forall i | 0 <= i < |f| :: 'a' <= f[i] <= 'z'
    ensures forall w: nat :: ValidPiece(Slot(f, w))
  {
  }

  /** The example of the name format's help text: area `A1`, corridor `3`, rack `12` and level `2` give `A1-03.012.02`. */
  lemma HelpTextExample()
    ensures Render("{area}-{corridor:0>2}.{rack:0>3}.{level:0>2}",
                   map["area" := "A1", "corridor" := "3", "rack" := "12", "level" := "2"])
         == Ok("A1-03.012.02")
  {
    UnparseHelpText();
    HelpTextPiecesValid();
    RenderUnparse(HelpTextPieces(), map["area" := "A1", "corridor" := "3", "rack" := "12", "level" := "2"]);
    SubstituteHelpText(map["area" := "A1", "corridor" := "3", "rack" := "12", "level" := "2"]);
  }
}
