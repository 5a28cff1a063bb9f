# Varnish-extended VCL generator and configuration reader, in Dafny

This project models the core of a Magento 2 extension that writes the Varnish
configuration (VCL) for a shop. The model covers two classes.

- `Model/Varnish/VCLGenerator.php` builds the variables handed to the VCL
  template:
  - the purge access list, with each address trimmed and blank addresses
    dropped;
  - the design-exception code, one `if` / ` elsif` block per user-agent
    rule. Each rule's PHP regex `/pattern/mods` is rewritten into Varnish's
    inline-modifier form `(?mods)pattern`;
  - the flags and values read from the configuration.
- `Model/Config.php` reads the extension's settings from Magento's
  configuration: the tracking parameters, the access list, and the boolean
  switches, which use PHP's `(bool)` cast.

Modules, one per file:

| file | module | what it holds |
|---|---|---|
| `wrappers.dfy` | `Wrappers` | `Option` and `Result` |
| `sequences.dfy` | `Sequences` | associativity of concatenation |
| `php_strings.dfy` | `PhpStrings` | PHP's `trim`, `explode`, `implode` and `empty` on strings |
| `config.dfy` | `Config` | the configuration reader over a snapshot of stored values |
| `vcl_regex.dfy` | `VclRegex` | the regex `/^[\W]{1}(.*)[\W]{1}(\w+)?$/` and the rewrite to `(?mods)body` |
| `design_exceptions.dfy` | `DesignExceptions` | `getRegexForDesignExceptions`, as a loop proved against a specification |
| `access_list.dfy` | `AccessList` | `getTransformedAccessList`, as a loop proved against a specification |
| `vcl_generator.dfy` | `VclGenerator` | `getVariables` |

The design-exception code is specified in two layers:

- `Branches` turns the rules into a list of `Branch` records: keyword,
  pattern and value.
- `RenderAll` turns those records into text.

The method `RegexForDesignExceptions` keeps the source's loop. It appends a
block for each rule the regex accepts, and its postcondition ties the result
to that specification. Facts about keywords, dropped rules and `hash_data(`
calls are lemmas about the specification.

The regex is modelled without a regex engine. `SplitRegexp` cuts a string at
the start of its trailing run of word characters. `SplitRegexpIsTheMatch`
proves that this cut is exactly the regex's match, with the regex written out
as the predicate `Splits`.

Two behaviours are reproduced as the code has them, not as its comments or
evident intent suggest:

- The doc comment at `Model/Varnish/VCLGenerator.php:65` says `/pattern/iU`
  becomes `(?Ui)pattern`. The code keeps the modifiers in their order and
  gives `(?iU)pattern`, which is what `ModifierOrder` proves.
- The keyword depends on the rule's position in the list, not on whether a
  block was emitted before. When rule 0 is rejected by the regex and a later
  rule is accepted, the code opens with a dangling ` elsif`.
  `OpeningKeyword` states this.

Some definitions carry no contract of their own and are specified by the
lemmas about them: `KeywordAt` (the choice of `if` or ` elsif` at
`VCLGenerator.php:86`) by `AcceptedStep`, `BranchKeywords` and
`OpeningKeyword`, `BlockText` (the template of `VCLGenerator.php:72`) by
`BlockSlots` and `BlockOccurrences`, `RenderAll` and `DesignExceptionsCode` by
`RenderAllEmpty`, `RenderOpens`, `EmptyCode`, `OpeningKeyword` and
`HashDataCount`, and PHP's `empty` on strings (`IsPhpEmpty`) by
`TranspileWellFormed` and `ZeroModifierDropped`, and `Variables` (the
merged map of `getVariables`) by the lemmas `VariableKeys`,
`TrackingVariable`, `PassedThroughVariables`, `BfcacheFlags`,
`SwitchVariables` and `GeneratedVariables`.

## Model

| member | source | states |
|---|---|---|
| DesignExceptions.RegexForDesignExceptions | Model/Varnish/VCLGenerator.php:69-92 | the loop returns exactly the specified code; an empty rule list gives "" |
| DesignExceptions.EmptyCode | Model/Varnish/VCLGenerator.php:74-91 | the code is empty exactly when no rule is accepted by the regex |
| DesignExceptions.AcceptedStep | Model/Varnish/VCLGenerator.php:80-87 | an accepted rule at index i adds one block: `if` for i = 0, ` elsif` otherwise, with the rewritten pattern and the rule's value |
| DesignExceptions.RejectedStep | Model/Varnish/VCLGenerator.php:80 | a rule the regex rejects adds nothing |
| DesignExceptions.BranchKeywords | Model/Varnish/VCLGenerator.php:79-86 | the first block opens with `if` iff rule 0 is accepted; every later block opens with ` elsif` |
| DesignExceptions.OpeningKeyword | Model/Varnish/VCLGenerator.php:86-87 | a non-empty code starts with "if" iff rule 0 is accepted; otherwise it starts with " elsif" |
| DesignExceptions.DropSkippedRule | Model/Varnish/VCLGenerator.php:79-88 | removing a rejected rule at any index but 0 leaves the code unchanged |
| DesignExceptions.DropUnmatched | Model/Varnish/VCLGenerator.php:79-88 | the same on the branch records: a rejected rule after the first changes no keyword |
| DesignExceptions.BranchesAppend | Model/Varnish/VCLGenerator.php:79-89 | rules are processed one by one in order: the branches of a concatenation are the concatenation of the branches, indices shifted |
| DesignExceptions.BranchesShift | Model/Varnish/VCLGenerator.php:86 | past index 0 a rule's position does not affect its branch |
| DesignExceptions.LaterBranchesAreElsif | Model/Varnish/VCLGenerator.php:86 | every branch from index 1 on carries ` elsif` |
| DesignExceptions.BranchesCount | Model/Varnish/VCLGenerator.php:80-88 | one branch per accepted rule |
| DesignExceptions.MatchedCount | Model/Varnish/VCLGenerator.php:80 | the accepted rules counted on the compiled list equal those counted on the rules |
| DesignExceptions.CompileAllAppend | Model/Varnish/VCLGenerator.php:79-80 | each rule is compiled on its own: compiling a concatenation concatenates the results |
| DesignExceptions.CompileAllIndex | Model/Varnish/VCLGenerator.php:79-80 | entry i of the compiled list is rule i compiled |
| DesignExceptions.RuleBranch | Model/Varnish/VCLGenerator.php:80-87 | a rule yields a branch iff its regexp has a match under the regex `Splits`; the branch then carries the keyword for its list index, `(?mods)body` (or `body` when mods is PHP-empty) and the rule's value unchanged |
| DesignExceptions.Compile | Model/Varnish/VCLGenerator.php:80 | a missing regexp reads as "" (the `?? ''`); a rule gets a pattern iff it has a regexp the regex splits; its value is passed on unchanged |
| DesignExceptions.SkipRejected | Model/Varnish/VCLGenerator.php:79-88 | the branches around a rejected rule after the first are the branches before it followed by the branches after it |
| DesignExceptions.BlockSlots | Model/Varnish/VCLGenerator.php:72-87 | a block opens with its keyword, and pattern and value sit verbatim between double quotes, with nothing escaped |
| DesignExceptions.RenderOpens | Model/Varnish/VCLGenerator.php:72-87 | the rendered blocks open with the first block's keyword |
| DesignExceptions.RenderAllEmpty | Model/Varnish/VCLGenerator.php:72-87 | the concatenated blocks are empty iff there are none |
| DesignExceptions.HashDataCount | Model/Varnish/VCLGenerator.php:72-89 | when no regexp or value carries `hash_data(` of its own, the code holds exactly one `hash_data(` per accepted rule |
| DesignExceptions.BlockOccurrences | Model/Varnish/VCLGenerator.php:72 | a block holds one `hash_data(` of its own plus those in its pattern and value |
| DesignExceptions.RenderAllOccurrences | Model/Varnish/VCLGenerator.php:72-87 | concatenated clean blocks hold one `hash_data(` each |
| DesignExceptions.PatternOccurrences | Model/Varnish/VCLGenerator.php:81-85 | the rewritten pattern holds no `hash_data(` that its regexp does not |
| DesignExceptions.CompiledClean | Model/Varnish/VCLGenerator.php:80-85 | rules without embedded calls compile to patterns and values without them |
| DesignExceptions.BranchesClean | Model/Varnish/VCLGenerator.php:80-87 | clean compiled rules give clean branches |
| DesignExceptions.OccurrencesAcross | Model/Varnish/VCLGenerator.php:72 | no `hash_data(` straddles a character outside the needle, such as the template's quotes |
| DesignExceptions.MiddleOnce | Model/Varnish/VCLGenerator.php:72 | the template text between the slots holds exactly one `hash_data(` |
| VclRegex.SplitRegexpIsTheMatch | Model/Varnish/VCLGenerator.php:80 | a regexp splits into `body` and `mods` under the regex iff `SplitRegexp` returns that pair, so the match is unique |
| VclRegex.SplitRegexpRejects | Model/Varnish/VCLGenerator.php:80 | `SplitRegexp` gives None iff the regex matches no split at all |
| VclRegex.WordRunStart | Model/Varnish/VCLGenerator.php:80 | the returned position starts the maximal trailing run of `\w` characters |
| VclRegex.SplitRegexp | Model/Varnish/VCLGenerator.php:80 | whatever it returns is a match of the regex, with the body and the modifier run as its two groups |
| VclRegex.Transpile | Model/Varnish/VCLGenerator.php:80-85 | a pattern is produced iff the regex matches, and it always ends with the body |
| VclRegex.ZeroModifierDropped | Model/Varnish/VCLGenerator.php:81-84 | a modifier run of "0" is PHP-empty, so `#p#0` becomes `p` |
| VclRegex.TranspileWellFormed | Model/Varnish/VCLGenerator.php:80-85 | a match `/P/M` becomes `(?M)P`, or `P` alone when M is "" or "0" |
| VclRegex.ModifierOrder | Model/Varnish/VCLGenerator.php:61-85 | `/p/iU` becomes `(?iU)p`, with the modifier order kept |
| AccessList.TransformedAccessList | Model/Varnish/VCLGenerator.php:99-109 | the loop returns the specified entry list |
| AccessList.Kept | Model/Varnish/VCLGenerator.php:103-106 | one address adds at most one entry, none exactly when it trims to "", and otherwise the entry holds the trimmed address |
| AccessList.KeptEntriesMember | Model/Varnish/VCLGenerator.php:101-108 | an address is in the result iff it is non-empty and some input address trims to it |
| AccessList.KeptEntries | Model/Varnish/VCLGenerator.php:99-109 | the result is no longer than the input |
| AccessList.KeptEntriesClean | Model/Varnish/VCLGenerator.php:103-105 | every entry holds a non-empty, trimmed address |
| AccessList.KeptEntriesLength | Model/Varnish/VCLGenerator.php:102-107 | exactly the addresses that trim to "" are dropped |
| AccessList.KeptEntriesConcat | Model/Varnish/VCLGenerator.php:102-107 | order is kept: the transform of a concatenation is the concatenation of the transforms |
| AccessList.KeptEntriesIdempotent | Model/Varnish/VCLGenerator.php:99-109 | transforming the resulting addresses again changes nothing |
| AccessList.KeptIdempotent | Model/Varnish/VCLGenerator.php:103-105 | a kept address is kept unchanged on a second pass |
| VclGenerator.GetVariables | Model/Varnish/VCLGenerator.php:41-59 | with the unserialized cookie rules taken as an input, the variables fail exactly when the stored tracking value is a string whose array-mode decoding is not an array, which is where `getTrackingParameters` fails |
| VclGenerator.FlagVariables | Model/Varnish/VCLGenerator.php:50-55 | the six switch keys; `enable_bfcache` is the stored switch and `disable_bfcache` its negation; `enable_media_cache`, `enable_static_cache`, `use_xkey_vmod` and `use_soft_purging` hold their `(bool)` getters |
| VclGenerator.BaseVariables | Model/Varnish/VCLGenerator.php:44-56 | the six pass-through keys; `host`, `port`, `grace_period` and `ssl_offloaded_header` hold the constructor arguments, `tracking_parameters` the given tracking string, `pass_on_cookie_presence` the cookie rules |
| VclGenerator.GeneratedParts | Model/Varnish/VCLGenerator.php:46-57 | `access_list` holds the transformed access list and `design_exceptions_code` the generated code |
| VclGenerator.VariableKeys | Model/Varnish/VCLGenerator.php:43-58 | the map always has the same fourteen keys |
| VclGenerator.BfcacheFlags | Model/Varnish/VCLGenerator.php:50-51 | `enable_bfcache` and `disable_bfcache` are booleans, each the negation of the other; `enable_bfcache` is true iff the stored value is truthy |
| VclGenerator.TrackingVariable | Model/Varnish/VCLGenerator.php:49 | `tracking_parameters` in the map is what `getTrackingParameters` returns |
| VclGenerator.PassedThroughVariables | Model/Varnish/VCLGenerator.php:44-56 | `host`, `port`, `grace_period`, `ssl_offloaded_header` and `pass_on_cookie_presence` in the map are their inputs, unchanged |
| VclGenerator.SwitchVariables | Model/Varnish/VCLGenerator.php:52-55 | `enable_media_cache`, `enable_static_cache`, `use_xkey_vmod` and `use_soft_purging` in the map are the `(bool)` getters of the configuration |
| VclGenerator.GeneratedVariables | Model/Varnish/VCLGenerator.php:46-57 | `access_list` is the transformed access list and `design_exceptions_code` the generated code |
| Config.GetTrackingParameters | Model/Config.php:59-70 | a string that decodes falsy is returned verbatim; a missing value gives ""; the call fails iff the array-mode decode of a string is not an array; in every other case the result is the `param` fields joined with `\|` |
| Config.ParamTexts | Model/Config.php:67-69 | one text per row, in order, each the row's `param` field, or "" when the row has none |
| Config.TrackingParametersEdges | Model/Config.php:67-69 | a stored empty array and `"{}"` give ""; `[{"param":"a\|b"},{}]` gives `a\|b\|` |
| Config.TrackingParametersSplit | Model/Config.php:67-69 | splitting the joined result on `\|` gives back the `param` fields, when there is at least one and none holds `\|` |
| Config.GetAccessList | Model/Config.php:107-111 | one entry per comma plus one, each the trimmed piece in order and comma-free; empty pieces are kept |
| Config.AccessListRestores | Model/Config.php:107-111 | when no piece has surrounding white space, joining the entries with commas restores the stored value |
| Config.AsBool | Model/Config.php:74 | PHP's `(bool)` is false exactly for null, false, 0, "" and "0" (the predicate `IsFalsy`) |
| Config.GetUseXkeyVmod | Model/Config.php:72-75 | false exactly for a falsy stored value |
| Config.GetUseSoftPurging | Model/Config.php:77-80 | false exactly for a falsy stored value |
| Config.GetEnableBfcache | Model/Config.php:87-90 | false exactly for a falsy stored value |
| Config.GetEnableMediaCache | Model/Config.php:128-131 | false exactly for a falsy stored value |
| Config.GetEnableStaticCache | Model/Config.php:133-136 | false exactly for a falsy stored value |
| Config.GetEnable404Cache | Model/Config.php:138-141 | false exactly for a falsy stored value |
| PhpStrings.Trim | Model/Config.php:110 | `trim` returns a trimmed string no longer than its input, and "" iff every character is white space |
| PhpStrings.TrimLeft | Model/Varnish/VCLGenerator.php:103 | the result is a suffix of the input, everything cut is white space, and it does not start with white space |
| PhpStrings.TrimRight | Model/Varnish/VCLGenerator.php:103 | the result is a prefix of the input, everything cut is white space, and it does not end with white space |
| PhpStrings.TrimStrips | Model/Varnish/VCLGenerator.php:103 | the input is a run of white space, then the trimmed string, then another run of white space |
| PhpStrings.TrimIdempotent | Model/Config.php:110 | trimming twice is trimming once |
| PhpStrings.TrimOfTrimmed | Model/Varnish/VCLGenerator.php:103 | trimming a trimmed string changes nothing |
| PhpStrings.Explode | Model/Config.php:110 | `explode` gives one piece more than there are separators, none holding the separator |
| PhpStrings.ImplodeExplode | Model/Config.php:110 | joining the pieces of `explode` with the separator restores the string |
| PhpStrings.Implode | Model/Config.php:67 | joining separator-free pieces puts exactly one separator between neighbours |
| PhpStrings.ExplodeImplode | Model/Config.php:67 | splitting a join recovers the pieces when none holds the separator |

## Left out

- `generateVcl` is not modelled: it creates the template renderer and fills the VCL template. Template rendering is not part of this model.
- Constructors, dependency injection and the parent Magento class are not modelled. The generator's constructor arguments form the `Generator` value.
- Reads from Magento's configuration (`scopeConfig->getValue`) are not modelled. Their results are fields of the `Config.Store` snapshot.
- JSON decoding and unserialization are not modelled.
  - For a tracking-parameter string, the truthiness of `json_decode($s)` and the result of `json_decode($s, true)` are inputs carried in `Config.TrackingRaw`.
  - `getPassOnCookiePresence` and `getDesignExceptions` only unserialize a stored value, so their results are inputs.
- VclGenerator.GetVariables: the failure of `getPassOnCookiePresence` is not modelled. `unserialize` can throw on an invalid stored value, and a result that is not an array breaks that getter's `array` return type; both would make `getVariables` throw. The unserialized cookie rules are an input here.
- `getSslOffloadedHeader`, `getBackendHost`, `getBackendPort` and `getGracePeriod` are not modelled: they pass a stored value through unchanged.
- Config.GetTrackingParameters: only three shapes of stored value are modelled, namely missing, a string and an array of rows. A stored value of another type, and rows that are not arrays, are not modelled.
- Config.AsBool: covers null, booleans, integers and strings. Floats and arrays are not modelled.
- Config.GetAccessList: a missing access-list value (`explode` on null) is not modelled, because the stored value is a string.
- DesignExceptions.RegexForDesignExceptions: requires regexps without a newline, where PCRE's `.` and `$` need no special treatment. A missing `value` key is not modelled.
- VclRegex.SplitRegexp: a `char` stands for one byte, and `\w` is ASCII letters, digits and underscore. This is PCRE without the `u` flag. Multi-byte characters are not modelled.
- DesignExceptions.HashDataCount: holds only when no regexp or value carries a `hash_data(` of its own. Otherwise the count is higher, and `BlockOccurrences` gives the exact sum.
- Magento's default template is not modelled. Whether a leading ` elsif` is valid VCL depends on the template that receives the code.
