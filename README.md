# twitter-text-php core, modelled in Dafny

This project models the core of `twitter-text.php`, the PHP port of twitter-text, and
proves properties of that model. It covers five parts:

- **`TwttrTxtRegex`** (`regex.dfy`, module `RegexWrapper`). This is the regex wrapper
  object that every pattern of the library is built from.
  - The constructor splits `"/source/flags"`. It accepts only the flags `i`, `m` and `u`,
    and `u` is always set.
  - `addFlags` is a set union over the ordered keys of `$_flags`.
  - `getSource` expands `#{name}` placeholders from the registry `TwttrTxt::$regexen`,
    recursively. As a side effect it merges each embedded regex's flags into the wrapper.
  - `__toString` writes `/source/flags`.

  The wrapper is a `class` with a constant `source` and a mutable `flags` field. The
  registry is an explicit `map` parameter. Its entries are either pattern strings, wrapped
  afresh on every use, or shared wrapper objects that the nested `getSource` updates.

  What a resolution returns, and how it changes the flags of every object it touches, is
  defined by the functions `RunPieces`/`Step` over a store of flags. The methods are
  proved equal to them. The code never checks the registry for reference cycles, so the
  model requires that resolution bottoms out (`Grounded`).
- **`stringSupplant`** (`templates.dfy`, module `Templates`). The `#{word}` placeholder
  scan is shared with `_replacePlaceHolders`. The template is cut into tokens the way
  `preg_replace_callback` meets them: leftmost match first, left to right, never
  rescanning a replacement.
- **`fromCharCode` / `addCharsToCharClass`** (`charclass.dfy`). `json_decode` is a
  parameter.
- **`removeOverlappingEntities`** (`overlap.dfy`, module `Entities`).
  - `usort` is a stable insertion sort by start offset, as PHP's sort is from PHP 8 on.
  - The `array_splice`/`$i--` loop is a method over the array's contents, proved against
    `KeepNonOverlapping`.
- **`extractUrlsWithIndices`, `extractHashtagsWithIndices`, `extractHashtags` and
  `_extend`** (`extract.dfy`, `php.dfy`).
  - Texts are byte strings and every offset is a byte offset.
  - The PCRE calls over the large composed grammars are an oracle (`Pcre`) that returns
    match records: group texts plus offsets.
  - The short anchored patterns the post-processing consults are hand-written
    predicates: `hashSigns`, `endHashtagMatch`, `invalidUrlWithoutProtocolPrecedingChars`
    and `validTcoUrl`.

PHP semantics that matter here are written out:
- truthiness of `""` and `"0"`;
- a missing array key reading as null;
- `substr` with a negative start;
- PCRE's `$` also matching before a final newline;
- `explode`/`implode`.

The model follows the code as written. In particular:
- A hashtag's indices start at capture group 3, the tag without its hash sign.
- The text tested against `endHashtagMatch` starts at the tag itself, not after it. As a
  result, that test never drops a well-formed tag (`Extract.EndHashtagMatchNeverFires`).
- A URL with a protocol starts at the whole match, so its span includes the preceding
  character.
- A protocol-less URL extended by its path is never pushed, because
  `$lastUrlInvalidMatch` is never set.

## Model

| member | source | states |
|---|---|---|
| Php.Extended | twitter-text.php:116-130 | `_extend` keeps every key the caller set, with its value, and adds exactly the missing defaults |
| Php.Extend | twitter-text.php:124-129 | the loop over the defaults returns `Extended(options, defaults)` |
| Php.ExtendedIdempotent | twitter-text.php:116-130 | defaulting twice is the same as defaulting once |
| Php.ExtendedKeepsCallerValue | twitter-text.php:125-127 | a key present in the options keeps the caller's value whatever the default |
| Templates.Lead | twitter-text.php:158 | a placeholder found at the start of a text is `#{` + a non-empty `\w` run + `}` |
| Templates.LeadFindsPlaceholder | twitter-text.php:158 | every `#{name}` at the start of a text is found, with the whole name |
| Templates.UnparsePieces | twitter-text.php:157-163 | the token scan loses and invents nothing: its tokens spell the template again |
| Templates.PiecesAppend | twitter-text.php:157-163 | the scan of a concatenation is the two scans joined when the second part starts at a boundary |
| Templates.StringSupplant | twitter-text.php:156-165 | `stringSupplant` touches only placeholders: a text without `#` is returned unchanged |
| Templates.SupplantPlaceholder | twitter-text.php:157-164 | a leading `#{word}` becomes the string form of `values[word]` when that value is truthy, else `""`, and the scan resumes after it |
| Templates.ToStr | twitter-text.php:160 | `"" . $v`: a string is itself, an integer its decimal digits (with `-` when negative), true is `"1"`, false and null are `""` |
| Templates.TruthyToStr | twitter-text.php:160 | a truthy value (`true`, a non-zero integer, a string other than `""` and `"0"`) converts to a non-empty string |
| Templates.SupplantInContext | twitter-text.php:157-164 | a placeholder inside a text is replaced and the text before and after it is substituted independently |
| Templates.SupplantAppend | twitter-text.php:157-164 | substitution distributes over concatenation at a boundary character |
| Templates.SupplantKeepsText | twitter-text.php:157-164 | when every placeholder's value is its own `#{name}` text the output equals the template: only placeholders change |
| Templates.SupplantMalformed | twitter-text.php:157-164 | a malformed `#{x]…` is copied literally and the scan resumes at the character that broke it |
| Templates.NameIsLiteral | twitter-text.php:157-164 | a run of word characters outside a placeholder is copied literally |
| RegexWrapper.AddKeysUnion | twitter-text.php:57-61 | `addFlags` keeps the old keys as a prefix, holds exactly the old and the added flags, and adds no duplicate |
| RegexWrapper.AddKeysIdempotent | twitter-text.php:57-61 | adding the same flags again changes nothing |
| RegexWrapper.AddKeysWellFormed | twitter-text.php:14-16 | flags that start with `u` and have no duplicates keep both properties under `addFlags` |
| RegexWrapper.FirstInvalidFlag | twitter-text.php:46-51 | None exactly when every character is `i`, `m` or `u`; otherwise the first character of the string that is not a flag, the one the loop throws on |
| RegexWrapper.Explode | twitter-text.php:22 | `explode` yields at least one part, two when the text starts with the separator, and no part holds the separator |
| RegexWrapper.ImplodeExplode | twitter-text.php:22-29 | `implode` undoes `explode` |
| RegexWrapper.SplitDelimitedSlashes | twitter-text.php:20-29 | `"/" . body . "/" . flags` gives source `body` (slashes included) and flags `flags` |
| RegexWrapper.SplitDelimitedSingleSlash | twitter-text.php:20-29 | with only a leading `/`, the rest is read as flags and the source is empty |
| RegexWrapper.ParseRegexFlags | twitter-text.php:18-55 | construction fails exactly when a flag string that is read holds a non-flag; the exception names the first non-flag of the inline flags, or, when those are all valid, of the flags argument; otherwise the flags are `u` plus the given ones, each once, `u` first |
| RegexWrapper.ParsePlainRegex | twitter-text.php:31-34 | a string that does not start with `/` is the source verbatim and only the flags argument adds flags |
| RegexWrapper.Regex.Init | twitter-text.php:13-16 | a fresh wrapper's flags are just `u` |
| RegexWrapper.Regex.New | twitter-text.php:18-44 | the constructor with a string argument yields the parse of `ParseRegex` or its exception |
| RegexWrapper.Regex.AddFlagsAsString | twitter-text.php:46-55 | the first invalid character is thrown and nothing is added; otherwise all characters are added as flags |
| RegexWrapper.Regex.AddFlags | twitter-text.php:57-61 | the new flags are the old ones with each added flag appended once |
| RegexWrapper.Regex.GetFlags | twitter-text.php:63-65 | the keys start with `u` and hold no duplicate |
| RegexWrapper.ResolveLiteral | twitter-text.php:71-90 | a source without `#` resolves to itself and leaves the flags of every wrapper unchanged |
| RegexWrapper.RunLiterals | twitter-text.php:74-88 | literal text is copied token by token and touches no flags |
| RegexWrapper.Regex.GetSource | twitter-text.php:67-69 | the result and the flags of this wrapper and of every registry object afterwards are those of the resolution semantics |
| RegexWrapper.Regex.ReplacePlaceHolders | twitter-text.php:71-90 | the left-to-right callback loop computes the resolution semantics, and an exception stops it |
| RegexWrapper.Regex.Replacement | twitter-text.php:76-86 | the callback returns `""` for a missing or falsy entry, else merges the entry's flags into this wrapper and returns its resolved source |
| RegexWrapper.Regex.Embed | twitter-text.php:82-83 | `addFlags(getFlags())` then `getSource()` on the entry object gives the nested resolution's text and store |
| RegexWrapper.Regex.ToString | twitter-text.php:92-95 | succeeds exactly when the source resolves, giving `"/" + resolved source + "/" + flags`, the flags read after the merge |
| RegexWrapper.ResolveInContext | twitter-text.php:71-90 | a placeholder in a source is replaced by its entry's resolved source (or `""`), and the text around it is resolved independently |
| RegexWrapper.RunResultAppend | twitter-text.php:74-88 | resolving a concatenation of tokens gives the two resolutions joined, the first exception winning |
| RegexWrapper.RunResultIndependent | twitter-text.php:74-88 | the resolved text never depends on the flags the objects hold |
| RegexWrapper.RunAgree | twitter-text.php:76-85 | resolutions from agreeing registry flags give the same text and agreeing registry flags |
| RegexWrapper.RunKeepsFlags | twitter-text.php:82 | flags are only ever added: each object's earlier flags stay a prefix of its later ones |
| RegexWrapper.RunFrame | twitter-text.php:76-85 | only the target and the registry's shared objects gain flags |
| RegexWrapper.RunErrorStops | twitter-text.php:74-88 | after an exception later placeholders change nothing |
| RegexWrapper.RunCollectsEmbeddedFlags | twitter-text.php:77-83 | after a successful resolution the target holds the flags of every regex its source embeds directly |
| CharClass.FromCharCode | twitter-text.php:173-179 | the decoded character, or the exception "Could not create character for code X" exactly when decoding yields null |
| CharClass.AddCharsToCharClass | twitter-text.php:181-187 | appends exactly one entry, `c` or `c-d` (only when the two code strings differ), keeps earlier entries, or throws the first failing code |
| CharClass.BuildClassEntries | twitter-text.php:181-187 | a build from code pairs has one entry per pair, in order |
| CharClass.BuildClassFails | twitter-text.php:181-187 | a build fails with the first failing pair's exception |
| CharClass.BuildClassOk | twitter-text.php:181-187 | a build succeeds when every pair decodes |
| Entities.SortByStart | twitter-text.php:566-568 | `usort` by the start offset gives a sorted permutation of the entities |
| Entities.SortByStartStable | twitter-text.php:566-568 | the sort is stable: the entities sharing any one start keep their input order |
| Entities.RemoveOverlappingEntities | twitter-text.php:565-579 | the splice loop leaves `KeepNonOverlapping` of the sorted array |
| Entities.KeepFirst | twitter-text.php:570 | the first entity after sorting is always kept |
| Entities.KeepIsSubsequence | twitter-text.php:571-578 | the result is a subsequence of the sorted input, with entities removed and never edited, and stays sorted |
| Entities.KeepIsChained | twitter-text.php:572-577 | every kept entity starts at or after the end of the previously kept one |
| Entities.KeepCovers | twitter-text.php:572-574 | every dropped entity starts inside a kept entity that starts no later |
| Entities.ChainedDisjoint | twitter-text.php:572-577 | with start <= end the kept entities are pairwise disjoint |
| Entities.SubsequenceDisjoint | twitter-text.php:709-713 | a subsequence of a disjoint list is disjoint |
| Extract.HasHashSign | twitter-text.php:333 | the `hashSigns` test holds exactly when `#` or `＃` occurs at some byte offset |
| Extract.EndHashtagMatch | twitter-text.php:336 | the `endHashtagMatch` test holds exactly when the text starts with `#`, `＃` or `://` |
| Extract.EndsWithInvalidPreceding | twitter-text.php:354 | the text, once a final newline is dropped, ends in one of `-_./` |
| Extract.Substr | twitter-text.php:685 | `substr` keeps all bytes from a start within the string (length minus start of them), none past its end, and the last `-start` bytes (at most all) for a negative start |
| Extract.SubstrSuffix | twitter-text.php:685 | `substr` with one argument always returns a tail of the string |
| Extract.TcoPrefix | twitter-text.php:407 | `validTcoUrl` matches a case-insensitive `https?://t.co/` followed by a non-empty alphanumeric run; the match is the URL cut right after the whole run |
| Extract.ExtractUrlsWithIndices | twitter-text.php:581-656 | returns `ExtractUrls`: the defaulted option, the early exit, then the entities of every match |
| Extract.PushUrlMatches | twitter-text.php:594-653 | the `foreach` collects, in match order, exactly the entities each match pushes (`UrlsOf`) |
| Extract.HandleUrlMatch | twitter-text.php:594-652 | one match's body pushes exactly `MatchUrls` |
| Extract.ExtractUrlsDefault | twitter-text.php:582-584 | without the option, protocol-less URLs are extracted |
| Extract.ExtractUrlsEarlyExit | twitter-text.php:586-588 | an empty or `"0"` text, or one without `.` (option on) or `:` (option off), has no URLs |
| Extract.AsciiWalkDomains | twitter-text.php:616-626 | the inner walk pushes one URL per ASCII domain that is not an invalid short domain, in order, each spanning its bytes; each domain is looked up from the previous domain's end, and its URL is `[startPosition + offset, startPosition + offset + strlen]` |
| Extract.ProtocolLessMatch | twitter-text.php:605-640 | a protocol-less match is skipped when the option is off or the text before ends in `-_./`; otherwise it yields exactly the inner walk's URLs (the valid ASCII domains), and the path-extended URL is never pushed |
| Extract.ProtocolMatch | twitter-text.php:641-651 | a match with a protocol yields one URL starting at the whole match; a t.co URL is cut right after the alphanumeric run that follows `t.co/` and spans its own bytes; any other spans the whole match, preceding character included |
| Extract.UrlsWellFormed | twitter-text.php:594-653 | every URL entity has start <= end |
| Extract.HashtagsEarlyExit | twitter-text.php:674-676 | an empty or `"0"` text, or one without `#` or `＃`, has no hashtags |
| Extract.ExtractHashtagsWithIndices | twitter-text.php:669-718 | the method returns `ExtractHashtagEntities` |
| Extract.CollectTags | twitter-text.php:683-698 | the loop over group 3 builds `TagsOf` |
| Extract.PushBackHashtags | twitter-text.php:708-713 | the push-back loop keeps the entities with a truthy tag, in order |
| Extract.TagsFromCaptures | twitter-text.php:683-698 | every tag is a capture's text with indices `[p, p + strlen(tag)]` |
| Extract.TagsMatchText | twitter-text.php:683-698 | with captures consistent with the text, a tag's indices select exactly its text |
| Extract.EndHashtagMatchNeverFires | twitter-text.php:684-688 | the `endHashtagMatch` test, made at the tag's own start, never fires for a tag body |
| Extract.AllCapturesBecomeTags | twitter-text.php:683-698 | hence every captured tag body becomes a tag, in order |
| Extract.OnlyHashtagsSubsequence | twitter-text.php:708-713 | the push-back keeps exactly the entities with a truthy tag, in order |
| Extract.OverlapCheckedTags | twitter-text.php:700-715 | with the overlap check and some URL, the tags returned are sorted by start, pairwise disjoint, truthy, and each one of the tags found |
| Extract.HashtagResultsAreTags | twitter-text.php:669-718 | whatever the options, each entity returned is one of the tags found, spanning its own text |
| Extract.UncheckedTags | twitter-text.php:700 | with the overlap check off, every tag found is returned, in order |
| Extract.HashtagTexts | twitter-text.php:662-664 | one text per entity, each the entity's tag |
| Extract.ExtractHashtags | twitter-text.php:658-667 | returns the texts of `extractHashtagsWithIndices($text)` |
| Extract.ExtractHashtagsTexts | twitter-text.php:658-667 | the texts are one per entity returned, in order, each a found tag's text |

## Left out

- Templates.ToStr: float and array values of `$values` are not modelled (PHP's float formatting, and `"Array"` with a notice); the values are null, booleans, integers and strings.
- RegexWrapper.FirstInvalidFlag: flags are read as characters, while PHP's `$flags[$i]` is a byte, so a non-ASCII flag is reported by its first byte.
- Entities.SortByStart: assumes the stable sort of PHP 8 and later; before PHP 8, `usort` could order entities with equal starts either way.
- The PCRE engine and the composed grammars of `init()` (`extractUrl`, `validHashtag`, `validAsciiDomain`, `invalidShortDomain`): matching semantics of a foreign library, taken as the oracle `Extract.Pcre`.
- The Unicode range tables and the rest of `init()`, including the `$_inited` guard and the registry writes: data and global initialisation, not logic. `CharClass.BuildClass` models how the builder folds over them.
- Which `\uXXXX` codes `json_decode` accepts: foreign behaviour, so `CharClass.Decoder` is a parameter.
- The offset of each ASCII domain inside the domain: the code calls `strpos` with an undefined variable as the needle, so the offset is an oracle function of the domain and the previous end.
- The copy-constructor path of `TwttrTxtRegex` (an object argument): it is never used.
- Non-array arguments of `_extend`: all callers pass arrays.
- The order of keys in `_extend`'s result: it is never observed, since options are only read by key.
- The rendering helpers (`htmlEscape`, `tagAttrs`, `_clone`) and the CSS/option constants: outside the modelled core.
- A PCRE failure on invalid UTF-8: every wrapped pattern carries the `u` flag, so PHP makes such a call fail. The hand-written predicates match on the bytes regardless.
- Unicode case folding under `i` together with `u` in `validTcoUrl`, for example U+212A KELVIN SIGN matching `k`: `Extract.TcoPrefix` folds ASCII only.
- `removeOverlappingEntities` on an empty array: PHP reads `$entities[0]` and warns. The only caller passes a non-empty array, and the model returns the empty array.
- RegexWrapper.Regex.GetSource: requires the registry to be free of reference cycles (`Grounded`), because PHP would recurse forever on one. The ghost `depth` only bounds the nesting for the proof.
- Extract.ExtractHashtags: its contract does not state what a missing `hashtag` key reads as, because every entity passed to it is a hashtag (`Extract.HashtagResultsAreTags`).
