/** The character-class builder `init()` uses to assemble its Unicode tables:
    `fromCharCode` turns a hexadecimal code into the character, and
    `addCharsToCharClass` appends a single character or a `c-d` range. */
module CharClass {
  import opened Wrappers

  /** `json_decode('"\u' . $code . '"')`: the decoded string, or None where PHP yields null.
      Which codes PHP's JSON decoder accepts is not modelled, so it is a parameter. */
  type Decoder = string -> Option<string>

  /** The exception `fromCharCode` throws. */
  datatype CharError = CouldNotCreate(code: string)

  function Message(e: CharError): string {
    "Could not create character for code " + e.code
  }

  /** `fromCharCode`: the decoded character, or the exception when decoding yields null. */
  function FromCharCode(decode: Decoder, code: string): (r: Result<string, CharError>)
    ensures r.Err? <==> decode(code).None?
    ensures r.Ok? ==> r.value == decode(code).value
    ensures r.Err? ==> Message(r.error) == "Could not create character for code " + code
  {
    match decode(code)
    case None => Err(CouldNotCreate(code))
    case Some(s) => Ok(s)
  }

  /** The one entry a call adds: the start character, then `-` and the end character
      unless the two code strings are identical (`$end !== $start`). */
  function ClassEntry(decode: Decoder, start: string, end: string): Result<string, CharError> {
    match FromCharCode(decode, start)
    case Err(e) => Err(e)
    case Ok(s) =>
      if end == start then Ok(s)
      else
        match FromCharCode(decode, end)
        case Err(e) => Err(e)
        case Ok(t) => Ok(s + "-" + t)
  }

  /** `addCharsToCharClass(&$charClass, $start, $end)`: the array passed by reference
      comes back as the new array, or the exception leaves it as it was. */
  method AddCharsToCharClass(decode: Decoder, charClass: seq<string>, start: string, end: string)
    returns (r: Result<seq<string>, CharError>)
    ensures decode(start).None? ==> r == Err(CouldNotCreate(start))
    ensures decode(start).Some? && end != start && decode(end).None? ==> r == Err(CouldNotCreate(end))
    ensures r.Ok? <==> decode(start).Some? && (end == start || decode(end).Some?)
    ensures r.Ok? ==> |r.value| == |charClass| + 1 && r.value[..|charClass|] == charClass
    ensures r.Ok? && end == start ==> r.value[|charClass|] == decode(start).value
    ensures r.Ok? && end != start ==> r.value[|charClass|] == decode(start).value + "-" + decode(end).value
  {
    var s := FromCharCode(decode, start);
    if s.Err? {
      return Err(s.error);
    }
    var entry := s.value;
    if end != start {
      var t := FromCharCode(decode, end);
      if t.Err? {
        return Err(t.error);
      }
      entry := entry + "-" + t.value;
    }
    r := Ok(charClass + [entry]);
  }

  /** Folding a list of (start, end) code pairs over an empty class, as `init()` does
      call by call: one entry per pair, in order, or the first exception. */
  function BuildClass(decode: Decoder, ranges: seq<(string, string)>): Result<seq<string>, CharError>
    decreases |ranges|
  {
    if ranges == [] then Ok([])
    else
      match BuildClass(decode, ranges[..|ranges| - 1])
      case Err(e) => Err(e)
      case Ok(prefix) =>
        match ClassEntry(decode, ranges[|ranges| - 1].0, ranges[|ranges| - 1].1)
        case Err(e) => Err(e)
        case Ok(entry) => Ok(prefix + [entry])
  }

  /** A successful build has exactly one entry per pair, the entry for that pair. */
  lemma {:induction false} BuildClassEntries(decode: Decoder, ranges: seq<(string, string)>)
    requires BuildClass(decode, ranges).Ok?
    ensures |BuildClass(decode, ranges).value| == |ranges|
    ensures forall k :: 0 <= k < |ranges| ==>
              ClassEntry(decode, ranges[k].0, ranges[k].1) == Ok(BuildClass(decode, ranges).value[k])
    decreases |ranges|
  {
    if ranges != [] {
      var pre := ranges[..|ranges| - 1];
      BuildClassEntries(decode, pre);
      forall k | 0 <= k < |pre| ensures pre[k] == ranges[k] {
      }
    }
  }

  /** A build fails exactly when some pair's entry fails, and then with the first such failure. */
  lemma {:induction false} BuildClassFails(decode: Decoder, ranges: seq<(string, string)>, k: nat)
    requires k < |ranges| && ClassEntry(decode, ranges[k].0, ranges[k].1).Err?
    requires forall j :: 0 <= j < k ==> ClassEntry(decode, ranges[j].0, ranges[j].1).Ok?
    ensures BuildClass(decode, ranges) == Err(ClassEntry(decode, ranges[k].0, ranges[k].1).error)
    decreases |ranges|
  {
    var pre := ranges[..|ranges| - 1];
    if k < |ranges| - 1 {
      BuildClassFails(decode, pre, k);
    } else {
      BuildClassOk(decode, pre);
    }
  }

  lemma {:induction false} BuildClassOk(decode: Decoder, ranges: seq<(string, string)>)
    requires forall j :: 0 <= j < |ranges| ==> ClassEntry(decode, ranges[j].0, ranges[j].1).Ok?
    ensures BuildClass(decode, ranges).Ok?
    decreases |ranges|
  {
    if ranges != [] {
      var pre := ranges[..|ranges| - 1];
      assert forall j :: 0 <= j < |pre| ==> pre[j] == ranges[j];
      BuildClassOk(decode, pre);
    }
  }
}
