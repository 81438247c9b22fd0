# hlsdl `misc.c` in Dafny

A model of the helper routines of hlsdl, an HLS stream downloader. These routines
live in `src/misc.c` and `src/misc.h`.

- **`parse_argv`**: reads the command line into the global `hls_args` record.
- **`repl_str`**: a two-pass substring replacement with a growable position cache.
- **`EndsWith`**: a suffix test.
- **`str_to_bin`**: decodes a hexstring into a key buffer.
- **Header constants and macros**: `MAX`, `STRLEN_BTS` and `HLSDL_MAX_NUM_OF_CUSTOM_HEADERS`.

C strings are the characters before their terminator (`string`). One Dafny `char`
stands for one C `char`, a byte, so a string's length is what `strlen` counts. A
NULL pointer is `None`. A byte of a freshly `malloc`ed buffer is `None` until something writes it.
Whether each `realloc`/`malloc` succeeds is a parameter: a function from the
allocation's ordinal to a boolean.

Files:

- `wrappers.dfy`: `Option` and `Result`.
- `config.dfy`: the `hls_args` record, `MAX`, `STRLEN_BTS` and the header-slot constant.
- `suffix.dfy`: `strncmp` and `EndsWith`.
- `hex.dfy`: `str_to_bin` and the per-byte `"%02x"` encoding that `bin_to_hex` prints.
- `replace.dfy`: `repl_str`, its reference definition, the cache growth schedule
  and the `size_t` length arithmetic.
- `argparse.dfy`: `parse_argv` as a fold of one `switch` step over the option
  tokens getopt returns. It also holds `atoi`.

Some facts worth knowing from the model:

- **`repl_str` is modelled for a non-empty `from` only.** An empty pattern is found
  where the scan stands, so the scan never advances and the count keeps growing.
  Each time the count passes the cache size the cache is reallocated. The call
  returns NULL at the first failed realloc, and does not return while every
  realloc succeeds.
- **The replacement is left to right and non-overlapping.** The proof shows that
  `repl_str` equals the recursive definition: if `from` begins the string, emit
  `to` and skip past it; otherwise keep one character.
- **Replacing back does not undo a replacement,** even when `from` and `to` do not
  occur in each other. A `to` that was already in the input is converted too.
  `ReplaceBackNotInverse` shows this on `"ab"`.
- **`str_to_bin` always returns 0.** A `-K` key therefore fails only on its length:
  32 characters that are not hex digits are accepted. With the one-byte store the
  model uses, a pair that does not convert leaves its key byte as `malloc` returned
  it. With the four-byte store the source performs, that byte is zeroed instead when
  a converted pair lies within the three cells before it (see Findings).
- **`str_to_bin` stores four bytes per converted pair.** `"%02x"` converts into an
  `unsigned int`, and `&data[i]` is a `uint8_t*`. The last pair of a 32-character
  key therefore writes three bytes past the 16-byte key buffer. `StrToBin` models
  the evidently intended one-byte store, and the rest of the model uses it;
  `StrToBinAsWritten` models the store as written.
- **The `-O` argument is stored into an `int` field.** The model records only that
  the field becomes non-zero (1).

## Model

| member | source | states |
|---|---|---|
| Config.Max | src/misc.h:12 | the result is at least both arguments and is one of them |
| Suffix.StrNCmp | src/misc.c:189 | strncmp over `n` characters is zero exactly when those characters agree |
| Suffix.EndsWith | src/misc.c:181-190 | false for a NULL argument and for a suffix longer than the string; otherwise true exactly when the last len(suffix) characters equal the suffix |
| Suffix.EndsWithIffConcat | src/misc.c:185-189 | `t` ends `s` exactly when `s` is some string followed by `t` |
| Suffix.EmptyAndSelfSuffix | src/misc.c:185-189 | the empty suffix ends every string, and every string ends itself |
| Hex.ScanPairs | src/misc.c:199-201 | the loop iterations from `i` to `n` write the scanned value into exactly those cells and keep all others |
| Hex.StrToBin | src/misc.c:192-204 | returns 0 always; writes only cells below (strlen mod 256)/2 whatever `len` is; a hex pair gives 16*high+low; a non-hex first character leaves the cell unchanged |
| Hex.StoreWide | src/misc.c:200 | the four-byte store of a scanned value puts it in its cell and zero in the three cells after it, and a failed conversion stores nothing |
| Hex.WidePairs | src/misc.c:199-201 | the loop with the four-byte store never changes memory three or more cells past its last pair |
| Hex.StrToBinAsWritten | src/misc.c:192-204 | str_to_bin as written returns 0 and leaves memory from three cells past the last pair unchanged |
| Hex.WideStoreOverruns | src/misc.c:97-98 | a 32-character `-K` key whose last pair converts writes zero into cells 16 and 18, past the 16-byte key buffer |
| Hex.WideZeroesNext | src/misc.c:199-201 | on "00zz" the four-byte store zeroes cell 1, where the one-byte store leaves it uninitialised |
| Hex.EncodeHex | src/misc.c:206-213 | "%02x" of each byte: two characters per byte, high nibble first, lowercase |
| Hex.BytePairRoundTrip | src/misc.c:200 | the "%02x" characters of any byte scan back to that byte |
| Hex.EncodeThenDecode | src/misc.c:197-201 | decoding the hex text of fewer than 128 bytes yields exactly those bytes, all known, whatever the buffer held |
| Hex.DecodeThenEncode | src/misc.c:197-201 | an even-length lowercase hexstring under 256 characters decodes to bytes whose hex text is that string |
| Hex.StrlenBtsFitsHex | src/misc.h:11 | STRLEN_BTS(n) is the hex text length of `n` bytes plus two |
| StrReplace.EmptyPatternStalls | src/misc.c:239-257 | an empty `from` is found where the scan stands, so the scan never advances past it |
| StrReplace.StrStr | src/misc.c:239 | a found offset lies at or after the start and leaves room for the pattern |
| StrReplace.StrStrFirst | src/misc.c:239 | strstr returns an occurrence, and no occurrence lies between the start and it; with no result there is none at all |
| StrReplace.MatchesSound | src/misc.c:239-258 | every cached position is an occurrence, and consecutive positions are at least len(from) apart, so they increase strictly and never overlap |
| StrReplace.MatchesGreedy | src/misc.c:239-258 | no occurrence is missed except one overlapping an earlier cached match |
| StrReplace.ScanMatches | src/misc.c:238-258 | the scan fails exactly when a needed growth fails; otherwise it caches exactly the greedy matches, grows the fewest times, and has capacity at least the match count |
| StrReplace.GrowCache | src/misc.c:243-254 | a full cache grows by the current increment and the increment is tripled up to its cap; a failed realloc is reported |
| StrReplace.IncrementClosedForm | src/misc.c:220-253 | after `k` growths the increment is min(16 * 3^k, 1048576), so it is always between 16 and 1048576 |
| StrReplace.GrowthsBound | src/misc.c:243-254 | recording `n` positions takes at most 12 + n/1048576 growths |
| StrReplace.GrowthFailureIsFatal | src/misc.c:245-247 | a failed growth that the final match count needs means the whole call fails |
| StrReplace.RetLenExact | src/misc.c:263-267 | the size_t length computation gives the true length even when len(to) - len(from) wraps, provided the true length fits |
| StrReplace.ReplaceAllLength | src/misc.c:260-268 | the replaced string has length len(str) + (len(to) - len(from)) * count |
| StrReplace.NoMatchIsCopy | src/misc.c:273-276 | with no match the replacement is the input unchanged |
| StrReplace.ReplaceBackNotInverse | src/misc.c:215-299 | replacing a by b and then b by a turns "ab" into "aa" |
| StrReplace.Build | src/misc.c:280-291 | over the positions the scan pass caches, with at least one match, the copy pass yields the recursive left-to-right replacement |
| StrReplace.BuiltIsReplaceAll | src/misc.c:280-291 | over the greedy match positions that output equals the recursive left-to-right replacement |
| StrReplace.ReplStr | src/misc.c:215-299 | NULL exactly when a realloc or the final malloc fails; otherwise the reference replacement, of the predicted length, and a plain copy when nothing matches |
| ArgParse.Atoi | src/misc.c:76 | a string without digits gives 0 |
| ArgParse.AtoiDecimal | src/misc.c:76 | atoi reads back every decimal number, with or without a minus sign |
| ArgParse.Step | src/misc.c:64-162 | the error flag is raised exactly by an unknown option or a `-K` argument that is not 32 characters long, and is never lowered; the header index never passes 256 |
| ArgParse.StepInt | src/misc.c:75-125 | an int option stores atoi of its argument in its own field and no other int field changes |
| ArgParse.StepString | src/misc.c:81-154 | a string option stores its argument in its own field and no other string field changes |
| ArgParse.StepFlag | src/misc.c:72-157 | a flag option sets its own flag and no other flag changes |
| ArgParse.StepLoglevel | src/misc.c:66-71 | `-v` adds one to the log level, `-q` subtracts one, and every other option leaves it |
| ArgParse.StepKeepFragments | src/misc.c:129-131 | only `-O` writes keep_fragments |
| ArgParse.StepUntouched | src/misc.c:64-162 | no option writes the url or skip_encryption, and only `-K` writes key_value |
| ArgParse.StepHeaders | src/misc.c:84-89 | `-h` fills the next slot while the index is below 256 and is dropped otherwise; nothing else touches the slots or the index |
| ArgParse.Fold | src/misc.c:62-163 | after the whole loop the index is still at most 256, and the error flag is set exactly when some token was bad |
| ArgParse.ParseArgv | src/misc.c:57-174 | success exactly when no token was bad and one positional argument remains, which becomes the url; otherwise the usage exit with status 0 |
| ArgParse.LastIntWins | src/misc.c:75-125 | an int field ends as atoi of the last argument given for it, or as it started |
| ArgParse.LastStringWins | src/misc.c:81-154 | a string field ends as the last argument given for it, or as it started |
| ArgParse.FlagsSticky | src/misc.c:72-157 | a flag ends true exactly when it started true or its option occurs |
| ArgParse.VerbosityCounts | src/misc.c:66-71 | the final log level is the initial one plus the `-v` count minus the `-q` count |
| ArgParse.KeepFragmentsSet | src/misc.c:129-131 | keep_fragments is non-zero after any `-O` and otherwise unchanged |
| ArgParse.Untouched | src/misc.c:62-163 | the loop never changes the url or skip_encryption, and never changes key_value without a `-K` |
| ArgParse.HeadersInOrder | src/misc.c:84-89 | the `-h` arguments fill the slots in order from the index, up to 256; later ones are dropped and other slots are unchanged |
| ArgParse.HeaderCapacity | src/misc.c:84-89 | with 256 or more `-h` options, a parse keeps exactly the first 256 in order |
| ArgParse.KeyValueSet | src/misc.c:96-107 | a `-K` of the wrong length leaves a fresh uninitialised key buffer; one of 32 characters decodes each hex pair into its key byte |
| ArgParse.KeyRoundTrip | src/misc.c:96-107 | a `-K` with the hex text of a 16-byte key stores exactly that key and raises no error |
| ArgParse.FoldTwo | src/misc.c:62-63 | the loop over two options applies them first to last |
| ArgParse.StepDecimal | src/misc.c:75-80 | an int option with a decimal argument stores exactly that number |
| ArgParse.WidthHeightExample | src/misc.c:57-174 | `-W 640 -H 360 url` from the zeroed record sets the width, height and url and nothing else |

## Left out

- `file_exists`: it is a filesystem `stat` call.
- `bin_to_hex`: the model has only its per-byte `"%02x"` text (`EncodeHex`). The
  printing is left out, and so is its length, which comes from `strlen` on a binary
  buffer.
- `print_help`: the usage text and the `exit(0)` it ends in are the `UsageExit(0)`
  result. The `MSG_ERROR` and `MSG_PRINT` logging is left out.
- getopt: argv permutation, `optind` and the optstring are not modelled. The input
  is the sequence of option characters and arguments getopt returns, plus the
  non-option arguments left after it.
- Atoi: does not model `int` overflow; the value is the unbounded integer.
- StrToBin: does not model `sscanf`'s leading white space, sign or `0x` prefix in a
  pair. A pair whose first character is a hex digit is scanned as in the model;
  any other pair leaves its cell as it was.
- StrToBin: stores one byte per converted pair, the evidently intended behaviour.
  The source stores a 4-byte `unsigned int` at `&data[i]`, which zeroes cells i+1
  to i+3 and writes up to three bytes past the buffer. That store is modelled
  separately by `StrToBinAsWritten` (see Findings).
- ScanPairs: keeps every cell outside the iterations it runs. That holds for the
  one-byte store only; with the source's 4-byte store a converted pair also zeroes
  the three cells after it (`StoreWide`).
- StoreWide: assumes a little-endian machine. On a big-endian one the value lands
  in cell i+3 and cells i to i+2 are zeroed.
- ArgParse.Step: the `-K` case decodes with the one-byte `StrToBin`. The source's
  4-byte store also overwrites the three bytes after the key buffer.
- ArgParse.Step: the `-O` case stores a `char*` into an `int`. The model writes 1,
  a non-zero value; the pointer's actual value is not modelled.
- ArgParse.Step: `malloc(KEYLEN)` in the `-K` case is taken to succeed.
- KEYLEN is not defined in `src/misc.c` or `src/misc.h`. It is taken as 16, the
  value the "32 characters hexstring" message implies.
- ReplStr: requires a non-empty from. With an empty `from`, strstr matches where
  the scan stands (`EmptyPatternStalls`), so the scan never advances. Every time
  the count passes the cache size, a larger realloc is made. The call returns NULL
  at the first failed realloc and never returns while all of them succeed. That
  non-terminating case has no Dafny counterpart.
- ReplStr: requires that len(str), len(to) and the result length plus one fit in a
  `size_t`, because no string that long can be in memory. It does not model the
  wrapped `malloc(retlen + 1)` beyond that bound.
- ReplStr: `free` and the pointer cache's memory are not modelled. Only the
  outcome of each allocation is a parameter.
- EncodeThenDecode: holds for fewer than 128 bytes only. `str_to_bin` keeps the
  hexstring's length in a `uint8_t`, so longer text wraps (`StrToBin` states the
  wrap).
- `cookie_file_mutex`, `write_ctx` and `ByteBuffer` are not modelled; they belong
  to other parts of the program. The global `hls_args` is a value passed in and
  returned.

## Findings

| source | as written | input that shows it | evidently intended | confidence | as-written member | corrected member |
|---|---|---|---|---|---|---|
| src/misc.c:200 | `sscanf(hexstring + 2 * i, "%02x", &data[i])` converts into a 4-byte `unsigned int` through a `uint8_t*`, so each converted pair also writes zero into the three cells after `data[i]` | `-K` with 32 hex digits: the last pair writes `data[16]` to `data[18]`, past the 16-byte buffer `malloc(KEYLEN)` returned; `"00zz"` zeroes cell 1, which should stay uninitialised | one byte per pair (`"%02hhx"` or an `unsigned int` temporary), so that only `data[0]` to `data[PairCount - 1]` are written | not executed; high, assuming a little-endian machine | Hex.WideStoreOverruns | Hex.StrToBin |
