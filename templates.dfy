/** The `#{name}` placeholder syntax shared by `stringSupplant` and the regex
    wrapper: PHP finds it with `preg_replace_callback('/#\{(\w+)\}/', ...)`, i.e.
    leftmost matches, scanned left to right, never rescanning a replacement. */
module Templates {
  import opened Wrappers
  import Php

  /** `\w` in a pattern without the u modifier: ASCII letters, digits and underscore. */
  predicate IsWordChar(c: char) {
    'a' <= c <= 'z' || 'A' <= c <= 'Z' || '0' <= c <= '9' || c == '_'
  }

  /** What `(\w+)` captures. */
  predicate IsName(n: string) {
    |n| > 0 && forall k :: 0 <= k < |n| ==> IsWordChar(n[k])
  }

  function Placeholder(name: string): string {
    "#{" + name + "}"
  }

  /** Length of the run of word characters at the start of s (what greedy `\w+` takes). */
  function WordRun(s: string): (k: nat)
    ensures k <= |s|
    ensures forall i :: 0 <= i < k ==> IsWordChar(s[i])
    ensures k == |s| || !IsWordChar(s[k])
  {
    if s != [] && IsWordChar(s[0]) then 1 + WordRun(s[1..]) else 0
  }

  /** The match of `#\{(\w+)\}` anchored at the start of s, if any: the captured
      name and the length of the whole match. */
  function Lead(s: string): (r: Option<(string, nat)>)
    ensures r.Some? ==> 0 < r.value.1 <= |s| && IsName(r.value.0)
                        && s[..r.value.1] == Placeholder(r.value.0)
  {
    if |s| >= 2 && s[0] == '#' && s[1] == '{' then
      var k := WordRun(s[2..]);
      if k > 0 && 2 + k < |s| && s[2 + k] == '}' then
        assert s[..3 + k] == "#{" + s[2..2 + k] + "}";
        Some((s[2..2 + k], 3 + k))
      else None
    else None
  }

  /** The converse of Lead's contract: every placeholder at the start is found. */
  lemma LeadFindsPlaceholder(name: string, rest: string)
    requires IsName(name)
    ensures Lead(Placeholder(name) + rest) == Some((name, |name| + 3))
  {
    var s := Placeholder(name) + rest;
    var k := WordRun(s[2..]);
    assert s[2..][..|name|] == name;
    assert s[2..][|name|] == '}';
    assert forall i :: 0 <= i < |name| ==> IsWordChar(s[2..][i]);
    assert k == |name|;
    assert s[2..2 + k] == name;
  }

  /** One token of a template: a literal character or a placeholder. */
  datatype Piece = Lit(c: char) | Hole(name: string)

  /** The template cut into tokens exactly as the leftmost-first scan meets them. */
  function Pieces(s: string): (ps: seq<Piece>)
    ensures forall k :: 0 <= k < |ps| && ps[k].Hole? ==> IsName(ps[k].name)
    decreases |s|
  {
    if s == [] then []
    else match Lead(s)
      case Some((name, len)) => [Hole(name)] + Pieces(s[len..])
      case None => [Lit(s[0])] + Pieces(s[1..])
  }

  function Text(p: Piece): string {
    match p
    case Lit(c) => [c]
    case Hole(name) => Placeholder(name)
  }

  /** Writes the tokens back out. */
  function Unparse(ps: seq<Piece>): string {
    if ps == [] then "" else Text(ps[0]) + Unparse(ps[1..])
  }

  lemma {:induction false} UnparseAppend(ps: seq<Piece>, qs: seq<Piece>)
    ensures Unparse(ps + qs) == Unparse(ps) + Unparse(qs)
  {
    if ps == [] {
      assert ps + qs == qs;
    } else {
      assert (ps + qs)[1..] == ps[1..] + qs;
      assert (ps + qs)[0] == ps[0];
      UnparseAppend(ps[1..], qs);
    }
  }

  /** The scan loses and invents nothing: its tokens spell the template again. */
  lemma {:induction false} UnparsePieces(s: string)
    ensures Unparse(Pieces(s)) == s
    decreases |s|
  {
    if s != [] {
      match Lead(s)
      case Some((name, len)) =>
        assert s == s[..len] + s[len..];
        UnparsePieces(s[len..]);
      case None =>
        assert s == [s[0]] + s[1..];
        UnparsePieces(s[1..]);
    }
  }

  /** A character at which no placeholder can start or end and that no `\w+` can absorb. */
  predicate Boundary(c: char) {
    !IsWordChar(c) && c != '{' && c != '}'
  }

  lemma WordRunAppend(a: string, c: string)
    requires c == [] || !IsWordChar(c[0])
    ensures WordRun(a + c) == WordRun(a)
  {
    if a != [] {
      assert (a + c)[1..] == a[1..] + c;
      WordRunAppend(a[1..], c);
    }
  }

  /** A placeholder found at the start of a + c lies inside a when c starts at a boundary. */
  lemma LeadAppend(a: string, c: string)
    requires a != []
    requires c == [] || Boundary(c[0])
    ensures Lead(a + c) == Lead(a)
  {
    var s := a + c;
    if |a| >= 2 && a[0] == '#' && a[1] == '{' {
      assert s[2..] == a[2..] + c;
      WordRunAppend(a[2..], c);
      var k := WordRun(a[2..]);
      assert s[2..2 + k] == a[2..2 + k];
      if 2 + k < |a| {
        assert s[2 + k] == a[2 + k];
      } else if c != [] {
        assert s[2 + k] == c[0];
      }
    } else if |a| == 1 && a[0] == '#' && c != [] {
      assert s[1] == c[0];
    }
  }

  /** The scan of a concatenation is the concatenation of the scans, provided the
      second part starts at a boundary such as `#`. */
  lemma {:induction false} PiecesAppend(a: string, c: string)
    requires c == [] || Boundary(c[0])
    ensures Pieces(a + c) == Pieces(a) + Pieces(c)
    decreases |a|
  {
    if a == [] {
      assert a + c == c;
    } else {
      var s := a + c;
      assert s[1..] == a[1..] + c;
      LeadAppend(a, c);
      match Lead(a)
      case Some((name, len)) =>
        assert s[len..] == a[len..] + c;
        PiecesAppend(a[len..], c);
      case None =>
        PiecesAppend(a[1..], c);
    }
  }

  /** The decimal digits of n, as PHP writes an integer. */
  function Digits(n: nat): (r: string)
    ensures |r| > 0 && forall k :: 0 <= k < |r| ==> '0' <= r[k] <= '9'
    ensures r[0] == '0' <==> n == 0
  {
    var d := ['0' + (n % 10) as char];
    if n < 10 then d else Digits(n / 10) + d
  }

  /** `"" . $v`: a string is itself, an integer its decimal form, true is "1", and
      false and null are "". */
  function ToStr(v: Php.Value): (r: string)
    ensures v.Str? ==> r == v.s
    ensures v.Int? && v.i >= 0 ==> r == Digits(v.i)
    ensures v.Int? && v.i < 0 ==> r == "-" + Digits(-v.i)
    ensures v == Php.Bool(true) ==> r == "1"
    ensures v.Null? || v == Php.Bool(false) ==> r == ""
  {
    match v
    case Null => ""
    case Bool(b) => if b then "1" else ""
    case Int(i) => if i >= 0 then Digits(i) else "-" + Digits(-i)
    case Str(t) => t
  }

  /** A truthy value converts to a non-empty string, and a falsy one is never
      converted, so a placeholder with a falsy value leaves nothing behind. */
  lemma {:induction false} TruthyToStr(v: Php.Value)
    requires Php.TruthyValue(v)
    ensures ToStr(v) != "" && (v.Int? ==> Php.Truthy(ToStr(v)))
  {
    if v.Int? && v.i > 0 {
      assert Digits(v.i)[0] != '0';
    }
  }

  /** `$values[$m[1]] ? ("" . $values[$m[1]]) : ""`: a missing key reads as null, and
      a falsy value (null, false, 0, "" or "0") is replaced by the empty string. */
  function Lookup(values: map<string, Php.Value>, name: string): string {
    if name in values && Php.TruthyValue(values[name]) then ToStr(values[name]) else ""
  }

  function Fill(ps: seq<Piece>, values: map<string, Php.Value>): string {
    if ps == [] then ""
    else
      (match ps[0]
       case Lit(c) => [c]
       case Hole(name) => Lookup(values, name))
      + Fill(ps[1..], values)
  }

  lemma FillAppend(ps: seq<Piece>, qs: seq<Piece>, values: map<string, Php.Value>)
    ensures Fill(ps + qs, values) == Fill(ps, values) + Fill(qs, values)
  {
    if ps == [] {
      assert ps + qs == qs;
    } else {
      assert (ps + qs)[0] == ps[0];
      assert (ps + qs)[1..] == ps[1..] + qs;
      FillAppend(ps[1..], qs, values);
    }
  }

  /** `stringSupplant($str, $values)`. A text without `#` has no placeholder and comes
      back unchanged. */
  function StringSupplant(s: string, values: map<string, Php.Value>): (r: string)
    ensures (forall k :: 0 <= k < |s| ==> s[k] != '#') ==> r == s
  {
    UnparsePieces(s);
    WithoutHashNoHole(s);
    FillSelf(Pieces(s), values);
    Fill(Pieces(s), values)
  }

  /** A leading placeholder becomes its value and the scan resumes right after it. */
  lemma SupplantPlaceholder(name: string, rest: string, values: map<string, Php.Value>)
    requires IsName(name)
    ensures StringSupplant(Placeholder(name) + rest, values) == Lookup(values, name) + StringSupplant(rest, values)
  {
    var s := Placeholder(name) + rest;
    LeadFindsPlaceholder(name, rest);
    assert s[|name| + 3..] == rest;
  }

  /** Substitution distributes over concatenation at a boundary character. */
  lemma SupplantAppend(a: string, c: string, values: map<string, Php.Value>)
    requires c == [] || Boundary(c[0])
    ensures StringSupplant(a + c, values) == StringSupplant(a, values) + StringSupplant(c, values)
  {
    PiecesAppend(a, c);
    FillAppend(Pieces(a), Pieces(c), values);
  }

  /** The placeholder in the middle of a text is replaced and the text around it is kept. */
  lemma SupplantInContext(before: string, name: string, after: string, values: map<string, Php.Value>)
    requires IsName(name)
    ensures StringSupplant(before + Placeholder(name) + after, values)
         == StringSupplant(before, values) + Lookup(values, name) + StringSupplant(after, values)
  {
    assert before + Placeholder(name) + after == before + (Placeholder(name) + after);
    SupplantAppend(before, Placeholder(name) + after, values);
    SupplantPlaceholder(name, after, values);
  }

  /** Filling tokens whose placeholders all map to their own text writes the tokens back out. */
  lemma {:induction false} FillSelf(ps: seq<Piece>, values: map<string, Php.Value>)
    ensures (forall k :: 0 <= k < |ps| && ps[k].Hole? ==> Lookup(values, ps[k].name) == Placeholder(ps[k].name))
            ==> Fill(ps, values) == Unparse(ps)
  {
    if ps != [] {
      assert forall k :: 0 <= k < |ps[1..]| ==> ps[1..][k] == ps[k + 1];
      FillSelf(ps[1..], values);
    }
  }

  /** Only placeholders are touched: when every placeholder's value is its own
      `#{name}` text, the output equals the template. */
  lemma SupplantKeepsText(s: string, values: map<string, Php.Value>)
    requires forall k :: 0 <= k < |Pieces(s)| && Pieces(s)[k].Hole? ==>
               Lookup(values, Pieces(s)[k].name) == Placeholder(Pieces(s)[k].name)
    ensures StringSupplant(s, values) == s
  {
    FillSelf(Pieces(s), values);
    UnparsePieces(s);
  }

  /** A text without `#` is scanned into literal characters only. */
  lemma {:induction false} WithoutHashNoHole(s: string)
    ensures (forall k :: 0 <= k < |s| ==> s[k] != '#') ==> forall k :: 0 <= k < |Pieces(s)| ==> Pieces(s)[k].Lit?
    decreases |s|
  {
    if s != [] && forall k :: 0 <= k < |s| ==> s[k] != '#' {
      assert Lead(s).None?;
      assert forall k :: 0 <= k < |s[1..]| ==> s[1..][k] == s[k + 1];
      WithoutHashNoHole(s[1..]);
      assert Pieces(s) == [Lit(s[0])] + Pieces(s[1..]);
    }
  }

  /** No placeholder starts at `#{name` followed by a character that is neither a word
      character nor `}`. */
  lemma {:induction false} LeadMalformed(name: string, c: char, rest: string)
    requires IsName(name)
    requires !IsWordChar(c) && c != '}'
    ensures Lead("#{" + name + [c] + rest).None?
  {
    var s := "#{" + name + [c] + rest;
    assert s[2..] == name + [c] + rest;
    var k := WordRun(s[2..]);
    assert s[2..][|name|] == c;
    assert forall i :: 0 <= i < |name| ==> IsWordChar(s[2..][i]);
    assert k == |name| && s[2 + k] == c;
  }

  lemma {:induction false} PiecesMalformed(name: string, c: char, rest: string)
    requires IsName(name)
    requires !IsWordChar(c) && c != '}'
    ensures Pieces("#{" + name + [c] + rest) == [Lit('#'), Lit('{')] + Pieces(name + ([c] + rest))
  {
    var s := "#{" + name + [c] + rest;
    assert s[1..] == "{" + name + [c] + rest;
    assert s[1..][1..] == name + ([c] + rest);
    LeadMalformed(name, c, rest);
    assert Lead(s[1..]).None?;
  }

  /** A malformed placeholder such as `#{x]}` is left literally: the `#{` and the
      name are copied and the scan resumes at the character that broke the match. */
  lemma {:induction false} SupplantMalformed(name: string, c: char, rest: string, values: map<string, Php.Value>)
    requires IsName(name)
    requires !IsWordChar(c) && c != '}'
    ensures StringSupplant("#{" + name + [c] + rest, values)
         == "#{" + name + StringSupplant([c] + rest, values)
  {
    var open: seq<Piece> := [Lit('#'), Lit('{')];
    var tail := Pieces(name + ([c] + rest));
    PiecesMalformed(name, c, rest);
    FillAppend(open, tail, values);
    assert Fill(open, values) == "#{";
    NameIsLiteral(name, [c] + rest, values);
  }

  lemma {:induction false} NameIsLiteral(name: string, rest: string, values: map<string, Php.Value>)
    requires forall k :: 0 <= k < |name| ==> IsWordChar(name[k])
    ensures StringSupplant(name + rest, values) == name + StringSupplant(rest, values)
    decreases |name|
  {
    if name == [] {
      assert name + rest == rest;
    } else {
      var s, t := name + rest, name[1..] + rest;
      assert s[1..] == t;
      assert s[0] == name[0];
      assert Lead(s).None?;
      var ps := Pieces(s);
      assert ps == [Lit(name[0])] + Pieces(t);
      assert ps[1..] == Pieces(t);
      NameIsLiteral(name[1..], rest, values);
      ConsAssoc(name[0], name[1..], StringSupplant(rest, values));
      assert [name[0]] + name[1..] == name;
    }
  }

  lemma ConsAssoc(c: char, a: string, b: string)
    ensures [c] + (a + b) == ([c] + a) + b
  {
  }

}
