/** The few PHP value semantics the library leans on: truthiness of strings and
    option values, byte strings, and the option-defaulting helper `_extend`. */
module Php {

  /** A byte of a PHP string; `strlen` and the offsets PCRE reports count these. */
  newtype byte = b: int | 0 <= b < 256

  type Bytes = seq<byte>

  /** `if ($s)` on a string: only "" and "0" are false. */
  predicate Truthy(s: string) {
    s != "" && s != "0"
  }

  /** The same test on a byte string ("0" is the single byte 0x30). */
  predicate TruthyBytes(s: Bytes) {
    s != [] && s != [0x30]
  }

  /** The values an options array holds in this library. */
  datatype Value = Null | Bool(b: bool) | Int(i: int) | Str(s: string)

  predicate TruthyValue(v: Value) {
    match v
    case Null => false
    case Bool(b) => b
    case Int(i) => i != 0
    case Str(s) => Truthy(s)
  }

  type Options = map<string, Value>

  /** What `_extend($array, $defaults)` returns: every key of `array` with its own
      value, plus every key of `defaults` that `array` lacks. */
  function Extended(given: Options, defaults: Options): (r: Options)
    ensures r.Keys == given.Keys + defaults.Keys
    ensures forall k :: k in given ==> r[k] == given[k]
    ensures forall k :: k in defaults && k !in given ==> r[k] == defaults[k]
  {
    defaults + given
  }

  /** `_extend`: walk the defaults and add each key the options do not have yet. */
  method Extend(given: Options, defaults: Options) returns (r: Options)
    ensures r == Extended(given, defaults)
  {
    r := given;
    var pending := defaults.Keys;
    while pending != {}
      invariant pending <= defaults.Keys
      invariant r == Extended(given, defaults - pending)
      decreases pending
    {
      var key :| key in pending;
      if key !in r {
        r := r[key := defaults[key]];
      }
      pending := pending - {key};
    }
    assert defaults - {} == defaults;
  }

  /** Defaulting twice changes nothing: `_extend` only fills keys that are missing. */
  lemma ExtendedIdempotent(given: Options, defaults: Options)
    ensures Extended(Extended(given, defaults), defaults) == Extended(given, defaults)
  {
  }

  /** A key the caller already set keeps the caller's value, whatever the default. */
  lemma ExtendedKeepsCallerValue(given: Options, defaults: Options, key: string)
    requires key in given
    ensures key in Extended(given, defaults) && Extended(given, defaults)[key] == given[key]
  {
  }
}
