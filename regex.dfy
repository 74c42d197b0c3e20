/** `TwttrTxtRegex`: a pattern source with `#{name}` placeholders and a set of PCRE
    modifier flags. Resolving the placeholders reads a name-to-regex registry
    (`TwttrTxt::$regexen`, here an explicit parameter) and, as a side effect, merges
    the flags of every regex it embeds into the wrapper that embeds it. */
module RegexWrapper {
  import opened Wrappers
  import opened Templates
  import Php

  const CaseInsensitive: char := 'i'
  const Multiline: char := 'm'
  const Utf8: char := 'u'

  /** A character `_addFlagsAsString` accepts. The greedy modifier is the empty
      string, so no single character can ever equal it. */
  predicate IsFlag(c: char) {
    c == CaseInsensitive || c == Utf8 || c == Multiline
  }

  /** The exception `"<c> is not a valid flag"`. */
  datatype Error = InvalidFlag(flag: char)

  predicate NoDuplicates(keys: seq<char>) {
    forall i, j :: 0 <= i < j < |keys| ==> keys[i] != keys[j]
  }

  /** The keys of `$_flags` in insertion order: the u modifier first, each key once. */
  predicate WellFormedFlags(keys: seq<char>) {
    |keys| > 0 && keys[0] == Utf8 && NoDuplicates(keys)
  }

  /** `$this->_flags[$flag] = true`: a new key goes last, an existing one stays put. */
  function AddKey(keys: seq<char>, k: char): seq<char> {
    if k in keys then keys else keys + [k]
  }

  function AddKeys(keys: seq<char>, add: seq<char>): seq<char>
    decreases |add|
  {
    if add == [] then keys else AddKeys(AddKey(keys, add[0]), add[1..])
  }

  /** `addFlags` is an order-keeping set union: the old keys stay a prefix, the
      result holds exactly the old and the added flags, and no key appears twice. */
  lemma {:induction false} AddKeysUnion(keys: seq<char>, add: seq<char>)
    ensures keys <= AddKeys(keys, add)
    ensures forall c :: c in AddKeys(keys, add) <==> c in keys || c in add
    ensures NoDuplicates(keys) ==> NoDuplicates(AddKeys(keys, add))
    decreases |add|
  {
    if add != [] {
      AddKeysUnion(AddKey(keys, add[0]), add[1..]);
      assert add == [add[0]] + add[1..];
    }
  }

  lemma {:induction false} AddKeysPresent(keys: seq<char>, add: seq<char>)
    requires forall c :: c in add ==> c in keys
    ensures AddKeys(keys, add) == keys
    decreases |add|
  {
    if add != [] {
      assert add[0] in add;
      AddKeysPresent(keys, add[1..]);
    }
  }

  /** Adding the same flags twice is the same as adding them once. */
  lemma AddKeysIdempotent(keys: seq<char>, add: seq<char>)
    ensures AddKeys(AddKeys(keys, add), add) == AddKeys(keys, add)
  {
    AddKeysUnion(keys, add);
    AddKeysPresent(AddKeys(keys, add), add);
  }

  lemma AddKeysWellFormed(keys: seq<char>, add: seq<char>)
    requires WellFormedFlags(keys)
    ensures WellFormedFlags(AddKeys(keys, add))
  {
    AddKeysUnion(keys, add);
    assert keys[0] == AddKeys(keys, add)[0];
  }

  /** c is the first character of s that is not a flag. */
  predicate FirstNonFlag(s: string, c: char) {
    exists k :: 0 <= k < |s| && s[k] == c && !IsFlag(c) && forall j :: 0 <= j < k ==> IsFlag(s[j])
  }

  /** The character `_addFlagsAsString` throws on, if any: the first one that is not a flag. */
  function FirstInvalidFlag(s: string): (r: Option<char>)
    ensures r.None? <==> forall k :: 0 <= k < |s| ==> IsFlag(s[k])
    ensures r.Some? ==> FirstNonFlag(s, r.value)
  {
    if s == [] then None
    else if !IsFlag(s[0]) then Some(s[0])
    else
      var r := FirstInvalidFlag(s[1..]);
      assert forall k :: 1 <= k < |s| ==> s[k] == s[1..][k - 1];
      assert r.Some? ==> FirstNonFlag(s, r.value) by {
        if r.Some? {
          var k :| 0 <= k < |s[1..]| && s[1..][k] == r.value && !IsFlag(r.value)
                   && forall j :: 0 <= j < k ==> IsFlag(s[1..][j]);
          assert s[k + 1] == r.value;
        }
      }
      r
  }

  /** `explode($sep, $s)`. */
  function Explode(s: string, sep: char): (parts: seq<string>)
    ensures |parts| >= 1
    ensures s != [] && s[0] == sep ==> |parts| >= 2
    ensures forall k :: 0 <= k < |parts| ==> sep !in parts[k]
  {
    if s == [] then [[]]
    else
      var rest := Explode(s[1..], sep);
      if s[0] == sep then [[]] + rest else [[s[0]] + rest[0]] + rest[1..]
  }

  /** `implode($sep, $parts)`. */
  function Implode(sep: char, parts: seq<string>): string {
    if |parts| == 0 then ""
    else if |parts| == 1 then parts[0]
    else parts[0] + [sep] + Implode(sep, parts[1..])
  }

  /** Joining the pieces with the separator gives back the exploded string. */
  lemma {:induction false} ImplodeExplode(s: string, sep: char)
    ensures Implode(sep, Explode(s, sep)) == s
  {
    if s != [] {
      var rest := Explode(s[1..], sep);
      ImplodeExplode(s[1..], sep);
      if s[0] == sep {
        assert ([[]] + rest)[1..] == rest;
        assert s == [sep] + s[1..];
      } else {
        var parts := [[s[0]] + rest[0]] + rest[1..];
        if |rest| == 1 {
          assert s == [s[0]] + rest[0];
        } else {
          assert parts[1..] == rest[1..];
          assert s == [s[0]] + (rest[0] + [sep] + Implode(sep, rest[1..]));
        }
      }
    }
  }

  lemma {:induction false} ExplodeWithoutSeparator(s: string, sep: char)
    requires sep !in s
    ensures Explode(s, sep) == [s]
  {
    if s != [] {
      ExplodeWithoutSeparator(s[1..], sep);
      assert s == [s[0]] + s[1..];
    }
  }

  /** The text after the last separator is the last piece. */
  lemma {:induction false} ExplodeLast(a: string, sep: char, b: string)
    requires sep !in b
    ensures Explode(a + [sep] + b, sep) == Explode(a, sep) + [b]
  {
    var s := a + [sep] + b;
    if a == [] {
      assert s[1..] == b;
      ExplodeWithoutSeparator(b, sep);
    } else {
      assert s[0] == a[0];
      assert s[1..] == a[1..] + [sep] + b;
      ExplodeLast(a[1..], sep, b);
    }
  }

  /** Source and inline flags of the constructor's string argument: for `"/source/flags"`
      the text between the first and the last `/` and the text after the last `/`. */
  function SplitDelimited(regex: string): (string, string) {
    if |regex| > 0 && regex[0] == '/' then
      var parts := Explode(regex, '/');
      (Implode('/', parts[1..|parts| - 1]), parts[|parts| - 1])
    else (regex, "")
  }

  /** `"/" . body . "/" . flags` splits back into body and flags, slashes in the body included. */
  lemma SplitDelimitedSlashes(body: string, flags: string)
    requires '/' !in flags
    ensures SplitDelimited("/" + body + "/" + flags) == (body, flags)
  {
    var s := "/" + body + "/" + flags;
    assert s[1..] == body + ['/'] + flags;
    ExplodeLast(body, '/', flags);
    var parts := Explode(s, '/');
    assert parts == [[]] + Explode(body, '/') + [flags];
    assert parts[1..|parts| - 1] == Explode(body, '/');
    ImplodeExplode(body, '/');
  }

  /** With a single leading `/`, everything after it is read as flags and the source is empty. */
  lemma SplitDelimitedSingleSlash(flags: string)
    requires '/' !in flags
    ensures SplitDelimited("/" + flags) == ("", flags)
  {
    var s := "/" + flags;
    assert s[1..] == flags;
    ExplodeWithoutSeparator(flags, '/');
    assert Explode(s, '/') == [[], flags];
  }

  /** A wrapper's state right after construction. */
  datatype Parsed = Parsed(source: string, flags: seq<char>)

  /** `new TwttrTxtRegex($regex, $flags)` for a string argument: the inline flags are
      checked and added when truthy, then the flags argument the same way. */
  function ParseRegex(regex: string, extra: string): Result<Parsed, Error> {
    var (source, inline) := SplitDelimited(regex);
    var fromRegex := if Php.Truthy(inline) then inline else "";
    var fromArg := if Php.Truthy(extra) then extra else "";
    match FirstInvalidFlag(fromRegex)
    case Some(c) => Err(InvalidFlag(c))
    case None =>
      match FirstInvalidFlag(fromArg)
      case Some(c) => Err(InvalidFlag(c))
      case None => Ok(Parsed(source, AddKeys(AddKeys([Utf8], fromRegex), fromArg)))
  }

  /** Construction fails exactly when a flag string that is read holds a character
      other than i, m, u; otherwise the flags are u followed by the given ones, each once. */
  lemma ParseRegexFlags(regex: string, extra: string)
    ensures var inline := SplitDelimited(regex).1;
            var fromRegex := if Php.Truthy(inline) then inline else "";
            var fromArg := if Php.Truthy(extra) then extra else "";
            && (ParseRegex(regex, extra).Ok? <==>
                  (forall c :: c in fromRegex ==> IsFlag(c)) && (forall c :: c in fromArg ==> IsFlag(c)))
            && (ParseRegex(regex, extra).Err? ==>
                  var c := ParseRegex(regex, extra).error.flag;
                  FirstNonFlag(fromRegex, c) || ((forall x :: x in fromRegex ==> IsFlag(x)) && FirstNonFlag(fromArg, c)))
            && (ParseRegex(regex, extra).Ok? ==>
                  var flags := ParseRegex(regex, extra).value.flags;
                  && WellFormedFlags(flags)
                  && (forall c :: c in flags <==> c == Utf8 || c in fromRegex || c in fromArg))
  {
    var inline := SplitDelimited(regex).1;
    var fromRegex := if Php.Truthy(inline) then inline else "";
    var fromArg := if Php.Truthy(extra) then extra else "";
    AddKeysUnion([Utf8], fromRegex);
    AddKeysUnion(AddKeys([Utf8], fromRegex), fromArg);
    AddKeysWellFormed([Utf8], fromRegex);
    AddKeysWellFormed(AddKeys([Utf8], fromRegex), fromArg);
  }

  /** A string that does not start with `/` is the source verbatim; only the flags
      argument is read for flags. */
  lemma ParsePlainRegex(regex: string, extra: string)
    requires regex == [] || regex[0] != '/'
    ensures var fromArg := if Php.Truthy(extra) then extra else "";
            && (ParseRegex(regex, extra).Ok? <==> forall c :: c in fromArg ==> IsFlag(c))
            && (ParseRegex(regex, extra).Ok? ==> ParseRegex(regex, extra).value == Parsed(regex, AddKeys([Utf8], fromArg)))
  {
  }

  /** A name-to-regex registry entry: a pattern string, wrapped afresh on every use,
      or a shared wrapper object. */
  datatype Entry = Pattern(text: string) | Compiled(regex: Regex)

  type Registry = map<string, Entry>

  /** The wrapper objects the registry shares. */
  function Objects(reg: Registry): set<Regex> {
    set n | n in reg && reg[n].Compiled? :: reg[n].regex
  }

  /** `if (TwttrTxt::$regexen[$name])`: a missing name reads as null, a string entry
      is false when "" or "0", an object is always true. */
  predicate Present(reg: Registry, name: string) {
    name in reg && (reg[name].Compiled? || Php.Truthy(reg[name].text))
  }

  /** The source an entry contributes once wrapped, or None when wrapping it throws. */
  function EmbeddedSource(e: Entry): Option<string> {
    match e
    case Compiled(x) => Some(x.source)
    case Pattern(t) => if ParseRegex(t, "").Ok? then Some(ParseRegex(t, "").value.source) else None
  }

  /** Resolving ps bottoms out within depth levels of nesting. The code never checks
      for reference cycles (it would recurse forever on one); callers must avoid them. */
  ghost predicate Grounded(reg: Registry, ps: seq<Piece>, depth: nat)
    decreases depth, 1
  {
    forall k :: 0 <= k < |ps| ==> GroundedPiece(reg, ps[k], depth)
  }

  ghost predicate GroundedPiece(reg: Registry, p: Piece, depth: nat)
    decreases depth, 0
  {
    p.Hole? && Present(reg, p.name) ==>
      depth > 0 &&
      (EmbeddedSource(reg[p.name]).Some? ==> Grounded(reg, Pieces(EmbeddedSource(reg[p.name]).value), depth - 1))
  }

  /** The flags of the objects a resolution can touch. */
  type Store = map<Regex, seq<char>>

  /** The outcome of resolving: the text (or the exception) and the flags afterwards. */
  datatype Run = Run(result: Result<string, Error>, store: Store)

  function AddTo(st: Store, target: Option<Regex>, add: seq<char>): Store {
    if target.Some? && target.value in st then st[target.value := AddKeys(st[target.value], add)] else st
  }

  function Append(acc: string, r: Result<string, Error>): Result<string, Error> {
    match r
    case Ok(s) => Ok(acc + s)
    case Err(e) => Err(e)
  }

  /** What `_replacePlaceHolders` does for the wrapper `target` (None: a temporary wrapper
      nobody can observe): the pieces are handled left to right and an exception ends it. */
  function RunPieces(reg: Registry, ps: seq<Piece>, st: Store, target: Option<Regex>, depth: nat): (run: Run)
    requires Grounded(reg, ps, depth)
    requires Objects(reg) <= st.Keys
    ensures run.store.Keys == st.Keys
    decreases depth, |ps|
  {
    if ps == [] then Run(Ok(""), st)
    else
      var prev := RunPieces(reg, ps[..|ps| - 1], st, target, depth);
      if prev.result.Err? then prev
      else Step(reg, prev.result.value, prev.store, ps[|ps| - 1], target, depth)
  }

  /** A present entry once wrapped: its source, the flags it carries (a shared object's
      as st holds them, a string's as its constructor reads them) and the object its own
      resolution merges flags into (None for the temporary wrapper of a string). */
  datatype Wrapped = Wrapped(source: string, flags: seq<char>, owner: Option<Regex>)

  function Wrap(reg: Registry, st: Store, name: string): (r: Result<Wrapped, Error>)
    requires name in reg && Objects(reg) <= st.Keys
    ensures r.Ok? <==> EmbeddedSource(reg[name]).Some?
    ensures r.Ok? ==> r.value.source == EmbeddedSource(reg[name]).value
    ensures r.Ok? && r.value.owner.Some? ==> r.value.owner.value in Objects(reg)
  {
    match reg[name]
    case Compiled(x) =>
      assert x in Objects(reg);
      Ok(Wrapped(x.source, st[x], Some(x)))
    case Pattern(t) =>
      match ParseRegex(t, "")
      case Err(e) => Err(e)
      case Ok(parsed) => Ok(Wrapped(parsed.source, parsed.flags, None))
  }

  /** Wrapping does not depend on the flags store except for the flags a shared object carries. */
  lemma WrapStores(reg: Registry, st1: Store, st2: Store, name: string)
    requires name in reg && Objects(reg) <= st1.Keys && Objects(reg) <= st2.Keys
    ensures Wrap(reg, st1, name).Ok? == Wrap(reg, st2, name).Ok?
    ensures Wrap(reg, st1, name).Err? ==> Wrap(reg, st1, name) == Wrap(reg, st2, name)
    ensures Wrap(reg, st1, name).Ok? ==>
              Wrap(reg, st1, name).value.source == Wrap(reg, st2, name).value.source
              && Wrap(reg, st1, name).value.owner == Wrap(reg, st2, name).value.owner
    ensures AgreeOn(Objects(reg), st1, st2) ==> Wrap(reg, st1, name) == Wrap(reg, st2, name)
  {
    if reg[name].Compiled? {
      assert reg[name].regex in Objects(reg);
    }
  }

  /** One piece after the text acc: a literal is copied; a placeholder whose entry is
      present has the entry's current flags merged into the target first, and then the
      entry's own placeholders resolved, which merges into the entry itself. */
  function Step(reg: Registry, acc: string, st: Store, p: Piece, target: Option<Regex>, depth: nat): (run: Run)
    requires GroundedPiece(reg, p, depth)
    requires Objects(reg) <= st.Keys
    ensures run.store.Keys == st.Keys
    decreases depth, 0
  {
    match p
    case Lit(c) => Run(Ok(acc + [c]), st)
    case Hole(name) =>
      if !Present(reg, name) then Run(Ok(acc), st)
      else
        match Wrap(reg, st, name)
        case Err(e) => Run(Err(e), st)
        case Ok(w) =>
          var inner := RunPieces(reg, Pieces(w.source), AddTo(st, target, w.flags), w.owner, depth - 1);
          Run(Append(acc, inner.result), inner.store)
  }

  function EmptyStore(reg: Registry): (st: Store)
    ensures st.Keys == Objects(reg)
  {
    map o | o in Objects(reg) :: []
  }

  /** The text `getSource()` returns for a wrapper with source s, or the exception it throws. */
  function Resolve(reg: Registry, s: string, depth: nat): Result<string, Error>
    requires Grounded(reg, Pieces(s), depth)
  {
    RunPieces(reg, Pieces(s), EmptyStore(reg), None, depth).result
  }

  /** Literal tokens are copied one by one and touch no flags. */
  lemma {:induction false} RunLiterals(reg: Registry, ps: seq<Piece>, st: Store, target: Option<Regex>, depth: nat)
    requires forall k :: 0 <= k < |ps| ==> ps[k].Lit?
    requires Objects(reg) <= st.Keys
    ensures Grounded(reg, ps, depth)
    ensures RunPieces(reg, ps, st, target, depth) == Run(Ok(Unparse(ps)), st)
    decreases |ps|
  {
    if ps != [] {
      var pre, last := ps[..|ps| - 1], ps[|ps| - 1];
      assert ps == pre + [last];
      RunLiterals(reg, pre, st, target, depth);
      UnparseAppend(pre, [last]);
      assert Unparse([last]) == [last.c] by {
        assert [last][1..] == [];
      }
      assert Step(reg, Unparse(pre), st, last, target, depth) == Run(Ok(Unparse(pre) + [last.c]), st);
    }
  }

  /** `getSource` keeps text outside placeholders: a source without `#` resolves to
      itself and leaves every wrapper's flags as they were. */
  lemma ResolveLiteral(reg: Registry, s: string, st: Store, target: Option<Regex>, depth: nat)
    requires forall k :: 0 <= k < |s| ==> s[k] != '#'
    requires Objects(reg) <= st.Keys
    ensures Grounded(reg, Pieces(s), depth)
    ensures RunPieces(reg, Pieces(s), st, target, depth) == Run(Ok(s), st)
    ensures Resolve(reg, s, depth) == Ok(s)
  {
    WithoutHashNoHole(s);
    UnparsePieces(s);
    RunLiterals(reg, Pieces(s), st, target, depth);
    RunLiterals(reg, Pieces(s), EmptyStore(reg), None, depth);
  }

  predicate AgreeOn(objs: set<Regex>, a: Store, b: Store) {
    objs <= a.Keys && objs <= b.Keys && forall o :: o in objs ==> a[o] == b[o]
  }

  predicate SameTarget(objs: set<Regex>, t1: Option<Regex>, t2: Option<Regex>) {
    t1 == t2 || ((t1.None? || t1.value !in objs) && (t2.None? || t2.value !in objs))
  }

  lemma AddToAgree(objs: set<Regex>, a: Store, t1: Option<Regex>, b: Store, t2: Option<Regex>, f: seq<char>)
    requires AgreeOn(objs, a, b) && SameTarget(objs, t1, t2)
    ensures AgreeOn(objs, AddTo(a, t1, f), AddTo(b, t2, f))
  {
  }

  /** Two resolutions that start from the same registry flags, for the same target or
      for targets outside the registry, produce the same text and the same registry flags. */
  lemma {:induction false} RunAgree(reg: Registry, ps: seq<Piece>, st1: Store, t1: Option<Regex>,
                                    st2: Store, t2: Option<Regex>, depth: nat)
    requires Grounded(reg, ps, depth)
    requires AgreeOn(Objects(reg), st1, st2)
    requires SameTarget(Objects(reg), t1, t2)
    ensures RunPieces(reg, ps, st1, t1, depth).result == RunPieces(reg, ps, st2, t2, depth).result
    ensures AgreeOn(Objects(reg), RunPieces(reg, ps, st1, t1, depth).store, RunPieces(reg, ps, st2, t2, depth).store)
    decreases depth, |ps|
  {
    if ps != [] {
      var pre := ps[..|ps| - 1];
      RunAgree(reg, pre, st1, t1, st2, t2, depth);
      var p1 := RunPieces(reg, pre, st1, t1, depth);
      var p2 := RunPieces(reg, pre, st2, t2, depth);
      if p1.result.Ok? {
        StepAgree(reg, p1.result.value, p1.store, t1, p2.store, t2, ps[|ps| - 1], depth);
      }
    }
  }

  lemma {:induction false} StepAgree(reg: Registry, acc: string, st1: Store, t1: Option<Regex>,
                                     st2: Store, t2: Option<Regex>, p: Piece, depth: nat)
    requires GroundedPiece(reg, p, depth)
    requires AgreeOn(Objects(reg), st1, st2)
    requires SameTarget(Objects(reg), t1, t2)
    ensures Step(reg, acc, st1, p, t1, depth).result == Step(reg, acc, st2, p, t2, depth).result
    ensures AgreeOn(Objects(reg), Step(reg, acc, st1, p, t1, depth).store, Step(reg, acc, st2, p, t2, depth).store)
    decreases depth, 0
  {
    if p.Hole? && Present(reg, p.name) {
      WrapStores(reg, st1, st2, p.name);
      var w := Wrap(reg, st1, p.name);
      if w.Ok? {
        AddToAgree(Objects(reg), st1, t1, st2, t2, w.value.flags);
        RunAgree(reg, Pieces(w.value.source), AddTo(st1, t1, w.value.flags), w.value.owner,
                 AddTo(st2, t2, w.value.flags), w.value.owner, depth - 1);
      }
    }
  }

  /** The text never depends on the flags: any two starting flag stores resolve alike. */
  lemma {:induction false} RunResultIndependent(reg: Registry, ps: seq<Piece>, st1: Store, t1: Option<Regex>,
                                                st2: Store, t2: Option<Regex>, depth: nat)
    requires Grounded(reg, ps, depth)
    requires Objects(reg) <= st1.Keys && Objects(reg) <= st2.Keys
    ensures RunPieces(reg, ps, st1, t1, depth).result == RunPieces(reg, ps, st2, t2, depth).result
    decreases depth, |ps|
  {
    if ps != [] {
      var pre := ps[..|ps| - 1];
      RunResultIndependent(reg, pre, st1, t1, st2, t2, depth);
      var p1 := RunPieces(reg, pre, st1, t1, depth);
      var p2 := RunPieces(reg, pre, st2, t2, depth);
      if p1.result.Ok? {
        StepResultIndependent(reg, p1.result.value, p1.store, t1, p2.store, t2, ps[|ps| - 1], depth);
      }
    }
  }

  lemma {:induction false} StepResultIndependent(reg: Registry, acc: string, st1: Store, t1: Option<Regex>,
                                                 st2: Store, t2: Option<Regex>, p: Piece, depth: nat)
    requires GroundedPiece(reg, p, depth)
    requires Objects(reg) <= st1.Keys && Objects(reg) <= st2.Keys
    ensures Step(reg, acc, st1, p, t1, depth).result == Step(reg, acc, st2, p, t2, depth).result
    decreases depth, 0
  {
    if p.Hole? && Present(reg, p.name) {
      WrapStores(reg, st1, st2, p.name);
      var w1, w2 := Wrap(reg, st1, p.name), Wrap(reg, st2, p.name);
      if w1.Ok? {
        RunResultIndependent(reg, Pieces(w1.value.source), AddTo(st1, t1, w1.value.flags), w1.value.owner,
                             AddTo(st2, t2, w2.value.flags), w2.value.owner, depth - 1);
      }
    }
  }

  /** Joins two outcomes; the first exception wins. */
  function Concat(a: Result<string, Error>, b: Result<string, Error>): Result<string, Error> {
    match a
    case Err(e) => Err(e)
    case Ok(s) => Append(s, b)
  }

  lemma StepAcc(reg: Registry, acc: string, st: Store, p: Piece, target: Option<Regex>, depth: nat)
    requires GroundedPiece(reg, p, depth)
    requires Objects(reg) <= st.Keys
    ensures Step(reg, acc, st, p, target, depth).result == Append(acc, Step(reg, "", st, p, target, depth).result)
  {
    assert acc + "" == acc;
    if p.Lit? {
      assert "" + [p.c] == [p.c];
    }
    if p.Hole? && Present(reg, p.name) {
      var w := Wrap(reg, st, p.name);
      if w.Ok? {
        var inner := RunPieces(reg, Pieces(w.value.source), AddTo(st, target, w.value.flags), w.value.owner, depth - 1);
        if inner.result.Ok? {
          assert "" + inner.result.value == inner.result.value;
        }
      }
    }
  }

  lemma GroundedAppend(reg: Registry, ps: seq<Piece>, qs: seq<Piece>, depth: nat)
    ensures Grounded(reg, ps + qs, depth) <==> Grounded(reg, ps, depth) && Grounded(reg, qs, depth)
  {
    if Grounded(reg, ps, depth) && Grounded(reg, qs, depth) {
      forall k | 0 <= k < |ps + qs| ensures GroundedPiece(reg, (ps + qs)[k], depth) {
        if k >= |ps| {
          assert (ps + qs)[k] == qs[k - |ps|];
        }
      }
    }
    if Grounded(reg, ps + qs, depth) {
      forall k | 0 <= k < |ps| ensures GroundedPiece(reg, ps[k], depth) {
        assert (ps + qs)[k] == ps[k];
      }
      forall k | 0 <= k < |qs| ensures GroundedPiece(reg, qs[k], depth) {
        assert (ps + qs)[|ps| + k] == qs[k];
      }
    }
  }

  /** The text of a concatenation of pieces is the two texts joined. */
  lemma {:induction false} RunResultAppend(reg: Registry, ps: seq<Piece>, qs: seq<Piece>, st: Store, target: Option<Regex>, depth: nat)
    requires Grounded(reg, ps, depth) && Grounded(reg, qs, depth)
    requires Objects(reg) <= st.Keys
    ensures Grounded(reg, ps + qs, depth)
    ensures RunPieces(reg, ps + qs, st, target, depth).result
         == Concat(RunPieces(reg, ps, st, target, depth).result, RunPieces(reg, qs, st, target, depth).result)
    decreases |qs|
  {
    GroundedAppend(reg, ps, qs, depth);
    var rp := RunPieces(reg, ps, st, target, depth);
    if qs == [] {
      assert ps + qs == ps;
      if rp.result.Ok? {
        assert rp.result.value + "" == rp.result.value;
      }
    } else {
      var q' := qs[..|qs| - 1];
      var last := qs[|qs| - 1];
      assert (ps + qs)[..|ps + qs| - 1] == ps + q';
      assert (ps + qs)[|ps + qs| - 1] == last;
      assert Grounded(reg, q', depth);
      RunResultAppend(reg, ps, q', st, target, depth);
      var prev := RunPieces(reg, ps + q', st, target, depth);
      var rq := RunPieces(reg, q', st, target, depth);
      if prev.result.Ok? {
        StepConcat(reg, rp.result.value, rq.result.value, prev.store, rq.store, last, target, depth);
      }
    }
  }

  /** One more piece after a + b: its text does not depend on the flags the two runs left. */
  lemma {:induction false} StepConcat(reg: Registry, a: string, b: string, st1: Store, st2: Store, p: Piece, target: Option<Regex>, depth: nat)
    requires GroundedPiece(reg, p, depth)
    requires Objects(reg) <= st1.Keys && Objects(reg) <= st2.Keys
    ensures Step(reg, a + b, st1, p, target, depth).result == Concat(Ok(a), Step(reg, b, st2, p, target, depth).result)
  {
    var x := Step(reg, "", st2, p, target, depth).result;
    if x.Ok? {
      assert a + b + x.value == a + (b + x.value);
    }
    StepAcc(reg, a + b, st1, p, target, depth);
    StepAcc(reg, b, st2, p, target, depth);
    StepResultIndependent(reg, "", st1, target, st2, target, p, depth);
  }

  /** What a placeholder `#{name}` turns into inside `getSource`: nothing when the entry is
      missing or false, else the entry's own source with its placeholders resolved (or the
      exception wrapping a string entry throws). */
  function EntryText(reg: Registry, name: string, depth: nat): Result<string, Error>
    requires GroundedPiece(reg, Hole(name), depth)
  {
    if !Present(reg, name) then Ok("")
    else
      match Wrap(reg, EmptyStore(reg), name)
      case Err(e) => Err(e)
      case Ok(w) => Resolve(reg, w.source, depth - 1)
  }

  lemma StepIsEntryText(reg: Registry, name: string, st: Store, target: Option<Regex>, depth: nat)
    requires GroundedPiece(reg, Hole(name), depth)
    requires Objects(reg) <= st.Keys
    ensures Step(reg, "", st, Hole(name), target, depth).result == EntryText(reg, name, depth)
  {
    if Present(reg, name) {
      WrapStores(reg, st, EmptyStore(reg), name);
      var w := Wrap(reg, st, name);
      if w.Ok? {
        var st1 := AddTo(st, target, w.value.flags);
        RunResultIndependent(reg, Pieces(w.value.source), st1, w.value.owner, EmptyStore(reg), None, depth - 1);
        var inner := RunPieces(reg, Pieces(w.value.source), st1, w.value.owner, depth - 1);
        if inner.result.Ok? {
          assert "" + inner.result.value == inner.result.value;
        }
      }
    } else {
      assert "" + "" == "";
    }
  }

  /** `getSource` replaces a placeholder in the middle of a source by what its entry
      resolves to and keeps the text around it, itself resolved. */
  lemma ResolveInContext(reg: Registry, before: string, name: string, after: string, depth: nat)
    requires IsName(name)
    requires Grounded(reg, Pieces(before), depth) && GroundedPiece(reg, Hole(name), depth)
    requires Grounded(reg, Pieces(after), depth)
    ensures Grounded(reg, Pieces(before + Placeholder(name) + after), depth)
    ensures Resolve(reg, before + Placeholder(name) + after, depth)
         == Concat(Concat(Resolve(reg, before, depth), EntryText(reg, name, depth)), Resolve(reg, after, depth))
  {
    var tail := Placeholder(name) + after;
    assert before + Placeholder(name) + after == before + tail;
    PiecesAppend(before, tail);
    LeadFindsPlaceholder(name, after);
    assert tail[|name| + 3..] == after;
    var hole: seq<Piece> := [Hole(name)];
    assert Pieces(tail) == hole + Pieces(after);
    assert Grounded(reg, hole, depth);
    var st := EmptyStore(reg);
    RunResultAppend(reg, hole, Pieces(after), st, None, depth);
    RunResultAppend(reg, Pieces(before), Pieces(tail), st, None, depth);
    assert hole[..0] == [];
    StepIsEntryText(reg, name, st, None, depth);
    var h := RunPieces(reg, hole, st, None, depth).result;
    assert h == EntryText(reg, name, depth);
    ConcatAssoc(Resolve(reg, before, depth), h, Resolve(reg, after, depth));
  }

  lemma ConcatAssoc(a: Result<string, Error>, b: Result<string, Error>, c: Result<string, Error>)
    ensures Concat(a, Concat(b, c)) == Concat(Concat(a, b), c)
  {
    if a.Ok? && b.Ok? && c.Ok? {
      assert a.value + (b.value + c.value) == a.value + b.value + c.value;
    }
  }

  /** Only the target and the registry's own objects gain flags. */
  lemma {:induction false} RunFrame(reg: Registry, ps: seq<Piece>, st: Store, target: Option<Regex>, depth: nat, k: Regex)
    requires Grounded(reg, ps, depth)
    requires Objects(reg) <= st.Keys
    requires k in st && k !in Objects(reg) && target != Some(k)
    ensures RunPieces(reg, ps, st, target, depth).store[k] == st[k]
    decreases depth, |ps|
  {
    if ps != [] {
      var pre := ps[..|ps| - 1];
      RunFrame(reg, pre, st, target, depth, k);
      var prev := RunPieces(reg, pre, st, target, depth);
      if prev.result.Ok? {
        StepFrame(reg, prev.result.value, prev.store, ps[|ps| - 1], target, depth, k);
      }
    }
  }

  lemma {:induction false} StepFrame(reg: Registry, acc: string, st: Store, p: Piece, target: Option<Regex>, depth: nat, k: Regex)
    requires GroundedPiece(reg, p, depth)
    requires Objects(reg) <= st.Keys
    requires k in st && k !in Objects(reg) && target != Some(k)
    ensures Step(reg, acc, st, p, target, depth).store[k] == st[k]
    decreases depth, 0
  {
    if p.Hole? && Present(reg, p.name) {
      var w := Wrap(reg, st, p.name);
      if w.Ok? {
        RunFrame(reg, Pieces(w.value.source), AddTo(st, target, w.value.flags), w.value.owner, depth - 1, k);
      }
    }
  }

  lemma RunPiecesLast(reg: Registry, ps: seq<Piece>, st: Store, target: Option<Regex>, depth: nat, i: nat)
    requires Grounded(reg, ps, depth)
    requires Objects(reg) <= st.Keys
    requires i < |ps|
    ensures Grounded(reg, ps[..i], depth) && Grounded(reg, ps[..i + 1], depth) && GroundedPiece(reg, ps[i], depth)
    ensures RunPieces(reg, ps[..i + 1], st, target, depth)
            == var prev := RunPieces(reg, ps[..i], st, target, depth);
               if prev.result.Err? then prev else Step(reg, prev.result.value, prev.store, ps[i], target, depth)
  {
    assert ps[..i + 1][..i] == ps[..i];
  }

  /** An exception ends the resolution: later placeholders change nothing. */
  lemma {:induction false} RunErrorStops(reg: Registry, ps: seq<Piece>, st: Store, target: Option<Regex>, depth: nat, j: nat)
    requires Grounded(reg, ps, depth)
    requires Objects(reg) <= st.Keys
    requires j <= |ps| && RunPieces(reg, ps[..j], st, target, depth).result.Err?
    ensures RunPieces(reg, ps, st, target, depth) == RunPieces(reg, ps[..j], st, target, depth)
    decreases |ps|
  {
    if j < |ps| {
      assert ps[..|ps| - 1][..j] == ps[..j];
      RunErrorStops(reg, ps[..|ps| - 1], st, target, depth, j);
    } else {
      assert ps[..j] == ps;
    }
  }

  /** Flags are only ever added: every object's earlier flags stay a prefix of its later ones. */
  lemma {:induction false} RunKeepsFlags(reg: Registry, ps: seq<Piece>, st: Store, target: Option<Regex>, depth: nat)
    requires Grounded(reg, ps, depth)
    requires Objects(reg) <= st.Keys
    ensures forall k :: k in st ==> st[k] <= RunPieces(reg, ps, st, target, depth).store[k]
    decreases depth, |ps|
  {
    if ps != [] {
      var pre := ps[..|ps| - 1];
      RunKeepsFlags(reg, pre, st, target, depth);
      var prev := RunPieces(reg, pre, st, target, depth);
      if prev.result.Ok? {
        StepKeepsFlags(reg, prev.result.value, prev.store, ps[|ps| - 1], target, depth);
      }
    }
  }

  lemma {:induction false} StepKeepsFlags(reg: Registry, acc: string, st: Store, p: Piece, target: Option<Regex>, depth: nat)
    requires GroundedPiece(reg, p, depth)
    requires Objects(reg) <= st.Keys
    ensures forall k :: k in st ==> st[k] <= Step(reg, acc, st, p, target, depth).store[k]
    decreases depth, 0
  {
    if p.Hole? && Present(reg, p.name) {
      var w := Wrap(reg, st, p.name);
      if w.Ok? {
        AddToKeeps(st, target, w.value.flags);
        RunKeepsFlags(reg, Pieces(w.value.source), AddTo(st, target, w.value.flags), w.value.owner, depth - 1);
      }
    }
  }

  lemma AddToKeeps(st: Store, target: Option<Regex>, add: seq<char>)
    ensures forall k :: k in st ==> st[k] <= AddTo(st, target, add)[k]
  {
    if target.Some? && target.value in st {
      AddKeysUnion(st[target.value], add);
    }
  }

  /** The flags a present entry hands to the wrapper embedding it, as read from st. */
  function EntryFlags(reg: Registry, st: Store, name: string): seq<char>
    requires Objects(reg) <= st.Keys
    requires Present(reg, name)
  {
    if Wrap(reg, st, name).Ok? then Wrap(reg, st, name).value.flags else []
  }

  /** An entry's flags only grow when the store's flags grow. */
  lemma EntryFlagsGrow(reg: Registry, st1: Store, st2: Store, name: string)
    requires Objects(reg) <= st1.Keys && Present(reg, name)
    requires st2.Keys == st1.Keys && forall k :: k in st1 ==> st1[k] <= st2[k]
    ensures EntryFlags(reg, st1, name) <= EntryFlags(reg, st2, name)
  {
    if reg[name].Compiled? {
      assert reg[name].regex in Objects(reg);
    }
  }

  /** After a successful resolution the target holds the flags of every regex its
      source embeds directly: a shared object's flags as they were at the start, a
      string entry's flags as its constructor reads them. */
  lemma {:induction false} RunCollectsEmbeddedFlags(reg: Registry, ps: seq<Piece>, st: Store, t: Regex, depth: nat)
    requires Grounded(reg, ps, depth)
    requires Objects(reg) <= st.Keys && t in st
    requires RunPieces(reg, ps, st, Some(t), depth).result.Ok?
    ensures forall k :: 0 <= k < |ps| && ps[k].Hole? && Present(reg, ps[k].name) ==>
              forall c :: c in EntryFlags(reg, st, ps[k].name) ==> c in RunPieces(reg, ps, st, Some(t), depth).store[t]
    decreases |ps|
  {
    if ps != [] {
      var pre := ps[..|ps| - 1];
      var prev := RunPieces(reg, pre, st, Some(t), depth);
      var run := RunPieces(reg, ps, st, Some(t), depth);
      assert prev.result.Ok?;
      RunCollectsEmbeddedFlags(reg, pre, st, t, depth);
      RunKeepsFlags(reg, pre, st, Some(t), depth);
      StepKeepsFlags(reg, prev.result.value, prev.store, ps[|ps| - 1], Some(t), depth);
      PrefixMembers(prev.store[t], run.store[t]);
      forall k | 0 <= k < |ps| && ps[k].Hole? && Present(reg, ps[k].name)
        ensures forall c :: c in EntryFlags(reg, st, ps[k].name) ==> c in run.store[t]
      {
        var name := ps[k].name;
        if k < |ps| - 1 {
          assert pre[k] == ps[k];
        } else {
          StepCollects(reg, prev.result.value, prev.store, name, t, depth);
          EntryFlagsGrow(reg, st, prev.store, name);
          PrefixMembers(EntryFlags(reg, st, name), EntryFlags(reg, prev.store, name));
        }
      }
    }
  }

  lemma StepCollects(reg: Registry, acc: string, st: Store, name: string, t: Regex, depth: nat)
    requires GroundedPiece(reg, Hole(name), depth) && Present(reg, name)
    requires Objects(reg) <= st.Keys && t in st
    requires Step(reg, acc, st, Hole(name), Some(t), depth).result.Ok?
    ensures forall c :: c in EntryFlags(reg, st, name) ==> c in Step(reg, acc, st, Hole(name), Some(t), depth).store[t]
  {
    var w := Wrap(reg, st, name).value;
    var st1 := AddTo(st, Some(t), w.flags);
    AddKeysUnion(st[t], w.flags);
    RunKeepsFlags(reg, Pieces(w.source), st1, w.owner, depth - 1);
    PrefixMembers(st1[t], Step(reg, acc, st, Hole(name), Some(t), depth).store[t]);
  }

  lemma PrefixMembers(a: seq<char>, b: seq<char>)
    requires a <= b
    ensures forall c :: c in a ==> c in b
  {
    forall c | c in a ensures c in b {
      var i :| 0 <= i < |a| && a[i] == c;
      assert b[i] == c;
    }
  }

  lemma StoreAfterCall(objs: set<Regex>, self: Regex, now: Store, inner: Store, calleeAfter: Store)
    requires now.Keys == objs + {self} && inner.Keys == objs + {self}
    requires AgreeOn(objs, inner, calleeAfter)
    requires forall o :: o in objs ==> now[o] == calleeAfter[o]
    requires self !in objs ==> now[self] == inner[self]
    ensures now == inner
  {
  }

  /** A `TwttrTxtRegex` object. PHP never reassigns `$_source` after construction. */
  class Regex {
    const source: string
    var flags: seq<char>

    ghost predicate Valid()
      reads this
    {
      WellFormedFlags(flags)
    }

    /** The fields' initial values, before the constructor reads its arguments. */
    constructor Init(src: string)
      ensures source == src && flags == [Utf8] && Valid()
    {
      source := src;
      flags := [Utf8];
    }

    /** `new TwttrTxtRegex($regex, $flags)` with a string argument; a thrown exception
        is returned as an Err. */
    static method New(regex: string, extra: string) returns (r: Result<Regex, Error>)
      ensures ParseRegex(regex, extra).Err? ==> r.Err? && r.error == ParseRegex(regex, extra).error
      ensures ParseRegex(regex, extra).Ok? ==>
                r.Ok? && fresh(r.value) && r.value.Valid()
                && r.value.source == ParseRegex(regex, extra).value.source
                && r.value.flags == ParseRegex(regex, extra).value.flags
    {
      var source := regex;
      var partsFlags := "";
      if |regex| > 0 && regex[0] == '/' {
        var parts := Explode(regex, '/');
        partsFlags := parts[|parts| - 1];
        source := Implode('/', parts[1..|parts| - 1]);
      }
      var re := new Regex.Init(source);
      if Php.Truthy(partsFlags) {
        var failure := re.AddFlagsAsString(partsFlags);
        if failure.Some? {
          return Err(failure.value);
        }
      }
      if Php.Truthy(extra) {
        var failure := re.AddFlagsAsString(extra);
        if failure.Some? {
          return Err(failure.value);
        }
      }
      AddKeysWellFormed([Utf8], if Php.Truthy(partsFlags) then partsFlags else "");
      AddKeysWellFormed(AddKeys([Utf8], if Php.Truthy(partsFlags) then partsFlags else ""),
                        if Php.Truthy(extra) then extra else "");
      r := Ok(re);
    }

    /** `_addFlagsAsString`: every character must be a flag; the first one that is not
        is thrown and nothing is added. */
    method AddFlagsAsString(s: string) returns (failure: Option<Error>)
      modifies this
      ensures failure == (match FirstInvalidFlag(s) case Some(c) => Some(InvalidFlag(c)) case None => None)
      ensures failure.None? ==> flags == AddKeys(old(flags), s)
      ensures failure.Some? ==> flags == old(flags)
    {
      var flagsArray := [];
      var i := 0;
      while i < |s|
        invariant 0 <= i <= |s|
        invariant flagsArray == s[..i]
        invariant FirstInvalidFlag(s) == FirstInvalidFlag(s[i..])
        invariant flags == old(flags)
      {
        if !IsFlag(s[i]) {
          return Some(InvalidFlag(s[i]));
        }
        assert s[i..][1..] == s[i + 1..];
        flagsArray := flagsArray + [s[i]];
        i := i + 1;
      }
      assert s[..i] == s;
      AddFlags(flagsArray);
      failure := None;
    }

    /** `addFlags`: each flag becomes a key of `$_flags`. */
    method AddFlags(add: seq<char>)
      modifies this
      ensures flags == AddKeys(old(flags), add)
    {
      var i := 0;
      while i < |add|
        invariant 0 <= i <= |add|
        invariant AddKeys(flags, add[i..]) == AddKeys(old(flags), add)
      {
        assert add[i..][1..] == add[i + 1..];
        flags := AddKey(flags, add[i]);
        i := i + 1;
      }
    }

    /** `getFlags`: the keys of `$_flags`, u first, each once. */
    function GetFlags(): (keys: seq<char>)
      reads this
      requires Valid()
      ensures |keys| > 0 && keys[0] == Utf8 && NoDuplicates(keys)
    {
      flags
    }

    /** `getSource`. */
    method GetSource(reg: Registry, ghost depth: nat) returns (r: Result<string, Error>)
      requires Grounded(reg, Pieces(source), depth)
      requires Valid() && forall o :: o in Objects(reg) ==> o.Valid()
      modifies this, Objects(reg)
      ensures r == RunPieces(reg, Pieces(source), old(Snapshot(reg, this)), Some(this), depth).result
      ensures Snapshot(reg, this) == RunPieces(reg, Pieces(source), old(Snapshot(reg, this)), Some(this), depth).store
      ensures Valid() && forall o :: o in Objects(reg) ==> o.Valid()
      decreases depth, 3
    {
      r := ReplacePlaceHolders(reg, source, depth);
    }

    /** `_replacePlaceHolders`: `preg_replace_callback` over the `#{name}` placeholders
        of str, left to right, each replaced by what `Replacement` returns. */
    method ReplacePlaceHolders(reg: Registry, str: string, ghost depth: nat) returns (r: Result<string, Error>)
      requires Grounded(reg, Pieces(str), depth)
      requires Valid() && forall o :: o in Objects(reg) ==> o.Valid()
      modifies this, Objects(reg)
      ensures r == RunPieces(reg, Pieces(str), old(Snapshot(reg, this)), Some(this), depth).result
      ensures Snapshot(reg, this) == RunPieces(reg, Pieces(str), old(Snapshot(reg, this)), Some(this), depth).store
      ensures Valid() && forall o :: o in Objects(reg) ==> o.Valid()
      decreases depth, 2
    {
      var ps := Pieces(str);
      ghost var st0 := Snapshot(reg, this);
      var acc := "";
      var i := 0;
      assert ps[..0] == [];
      while i < |ps|
        invariant 0 <= i <= |ps|
        invariant Grounded(reg, ps[..i], depth)
        invariant RunPieces(reg, ps[..i], st0, Some(this), depth) == Run(Ok(acc), Snapshot(reg, this))
        invariant Valid() && forall o :: o in Objects(reg) ==> o.Valid()
        decreases |ps| - i
      {
        RunPiecesLast(reg, ps, st0, Some(this), depth, i);
        ghost var next := Step(reg, acc, Snapshot(reg, this), ps[i], Some(this), depth);
        assert RunPieces(reg, ps[..i + 1], st0, Some(this), depth) == next;
        match ps[i] {
          case Lit(c) =>
            acc := acc + [c];
          case Hole(name) =>
            var res := Replacement(reg, name, acc, depth);
            if res.Err? {
              RunErrorStops(reg, ps, st0, Some(this), depth, i + 1);
              return Err(res.error);
            }
            acc := acc + res.value;
        }
        assert next == Run(Ok(acc), Snapshot(reg, this));
        i := i + 1;
      }
      assert ps[..i] == ps;
      r := Ok(acc);
    }

    /** The callback `_replacePlaceHolders` hands to `preg_replace_callback`, for the
        placeholder `#{name}` found after the text acc: a present entry (wrapped first
        when it is a string) gives its flags to this wrapper and its source as the
        replacement; anything else is replaced by the empty string. */
    method Replacement(reg: Registry, name: string, ghost acc: string, ghost depth: nat) returns (r: Result<string, Error>)
      requires GroundedPiece(reg, Hole(name), depth)
      requires Valid() && forall o :: o in Objects(reg) ==> o.Valid()
      modifies this, Objects(reg)
      ensures Step(reg, acc, old(Snapshot(reg, this)), Hole(name), Some(this), depth)
              == Run(Append(acc, r), Snapshot(reg, this))
      ensures Valid() && forall o :: o in Objects(reg) ==> o.Valid()
      decreases depth, 1
    {
      ghost var before := Snapshot(reg, this);
      if !Present(reg, name) {
        assert acc + "" == acc;
        return Ok("");
      }
      match reg[name] {
        case Compiled(x) =>
          assert x in Objects(reg);
          r := Embed(reg, x, depth);
        case Pattern(t) =>
          var made := Regex.New(t, "");
          if made.Err? {
            return Err(made.error);
          }
          r := Embed(reg, made.value, depth);
      }
    }

    /** `$that->addFlags($obj->getFlags()); return $obj->getSource();` for the entry's
        object obj: a registry object is the target of its own resolution, a freshly
        wrapped string is a target nobody else can see. */
    method Embed(reg: Registry, obj: Regex, ghost depth: nat) returns (r: Result<string, Error>)
      requires depth > 0 && Grounded(reg, Pieces(obj.source), depth - 1)
      requires obj in Objects(reg) || obj != this
      requires obj.Valid() && Valid() && forall o :: o in Objects(reg) ==> o.Valid()
      modifies this, obj, Objects(reg)
      ensures var inner := RunPieces(reg, Pieces(obj.source),
                                     AddTo(old(Snapshot(reg, this)), Some(this), old(obj.flags)),
                                     if obj in Objects(reg) then Some(obj) else None, depth - 1);
              r == inner.result && Snapshot(reg, this) == inner.store
      ensures Valid() && forall o :: o in Objects(reg) ==> o.Valid()
      decreases depth, 0
    {
      ghost var target := if obj in Objects(reg) then Some(obj) else None;
      ghost var before := Snapshot(reg, this);
      AddKeysWellFormed(flags, obj.flags);
      AddFlags(obj.GetFlags());
      ghost var mid := Snapshot(reg, this);
      assert mid == AddTo(before, Some(this), old(obj.flags));
      ghost var calleeBefore := Snapshot(reg, obj);
      r := obj.GetSource(reg, depth - 1);
      ghost var calleeAfter := Snapshot(reg, obj);
      ghost var inner := RunPieces(reg, Pieces(obj.source), mid, target, depth - 1);
      RunAgree(reg, Pieces(obj.source), mid, target, calleeBefore, Some(obj), depth - 1);
      if this !in Objects(reg) {
        RunFrame(reg, Pieces(obj.source), mid, target, depth - 1, this);
      }
      ghost var now := Snapshot(reg, this);
      assert forall o :: o in Objects(reg) ==> now[o] == calleeAfter[o];
      StoreAfterCall(Objects(reg), this, now, inner.store, calleeAfter);
    }

    /** `__toString`: `"/" . getSource() . "/" . implode('', getFlags())`, the flags
        being read after `getSource` has merged the embedded ones. */
    method ToString(reg: Registry, ghost depth: nat) returns (r: Result<string, Error>)
      requires Grounded(reg, Pieces(source), depth)
      requires Valid() && forall o :: o in Objects(reg) ==> o.Valid()
      modifies this, Objects(reg)
      ensures r.Ok? <==> Resolve(reg, source, depth).Ok?
      ensures r.Ok? ==> r.value == "/" + Resolve(reg, source, depth).value + "/" + flags
      ensures r.Err? ==> r.error == Resolve(reg, source, depth).error
      ensures Snapshot(reg, this) == RunPieces(reg, Pieces(source), old(Snapshot(reg, this)), Some(this), depth).store
      ensures Valid() && forall o :: o in Objects(reg) ==> o.Valid()
    {
      RunResultIndependent(reg, Pieces(source), Snapshot(reg, this), Some(this), EmptyStore(reg), None, depth);
      var s := GetSource(reg, depth);
      if s.Err? {
        return Err(s.error);
      }
      r := Ok("/" + s.value + "/" + GetFlags());
    }
  }

  /** The flags of the registry's objects and of `self`, as the heap holds them now. */
  ghost function Snapshot(reg: Registry, self: Regex): (st: Store)
    reads Objects(reg), self
    ensures st.Keys == Objects(reg) + {self}
  {
    map o | o in Objects(reg) + {self} :: o.flags
  }
}
