/** parse_argv of misc.c: a left fold of the options getopt delivers over the
    `hls_args` record, followed by the final acceptance rule. getopt itself is not
    modelled; its output is given as a sequence of tokens, the option character it
    returned together with `optarg`, plus the non-option arguments it left over. */
module ArgParse {
  import opened Wrappers
  import opened Config
  import opened Hex

  /** One option as getopt returns it: the character (`'?'` for an unknown option or
      a missing argument) and `optarg`, which only argument-taking options read. */
  datatype Token = Token(opt: char, optarg: string)

  /** The loop state of parse_argv: the record, `custom_header_idx`, and whether `ret`
      has been set to -1. */
  datatype ParseState = ParseState(args: HlsArgs, headerIdx: nat, failed: bool)

  /** The failure outcome: print_help writes the usage text and exits with this status. */
  datatype Usage = UsageExit(status: int)

  /** Options whose argument goes through atoi into an int field. */
  predicate IsIntOption(c: char)
  {
    c == 'W' || c == 'H' || c == 's' || c == 'i' || c == 'I' || c == 'e' || c == 'r' || c == 'w'
  }

  /** Options whose argument string is stored as it is. */
  predicate IsStringOption(c: char)
  {
    c == 'A' || c == 'o' || c == 'u' || c == 'C' || c == 'p' || c == 'k' || c == 'n' || c == 'a'
  }

  /** Options that set a bool field to true. */
  predicate IsFlagOption(c: char)
  {
    c == 'b' || c == 'f' || c == 'F' || c == 't' || c == 'd' || c == 'c'
  }

  /** An option character the switch has a case for: these are also exactly the
      letters of the optstring, so anything else getopt returns is its `'?'`. */
  predicate Recognised(c: char)
  {
    IsIntOption(c) || IsStringOption(c) || IsFlagOption(c) ||
    c == 'v' || c == 'q' || c == 'h' || c == 'K' || c == 'O'
  }

  /** An option that sets `ret = -1`: one the switch does not know, or a `-K` whose
      argument is not 2 * KEYLEN characters long. */
  predicate BadToken(t: Token)
  {
    !Recognised(t.opt) || (t.opt == 'K' && |t.optarg| != 2 * KeyLen)
  }

  // ---------------------------------------------------------------------------
  // atoi
  // ---------------------------------------------------------------------------

  /** The characters isspace accepts in the C locale. */
  predicate IsSpace(c: char)
  {
    c == ' ' || c == '\t' || c == '\n' || c == '\r' || c == 11 as char || c == 12 as char
  }

  predicate IsDigit(c: char)
  {
    '0' <= c <= '9'
  }

  predicate AllDigits(d: string)
  {
    forall i :: 0 <= i < |d| ==> IsDigit(d[i])
  }

  /** `s` without its leading white space. */
  function SkipSpace(s: string): (r: string)
    ensures |r| <= |s| && r == s[|s| - |r|..]
    ensures r == [] || !IsSpace(r[0])
    ensures forall i :: 0 <= i < |s| - |r| ==> IsSpace(s[i])
  {
    if s != [] && IsSpace(s[0]) then
      var r := SkipSpace(s[1..]);
      assert s[1..][|s| - 1 - |r|..] == s[|s| - |r|..];
      assert forall i :: 1 <= i < |s| - |r| ==> s[i] == s[1..][i - 1];
      r
    else s
  }

  /** The longest prefix of `s` made of decimal digits. */
  function DigitRun(s: string): (r: string)
    ensures |r| <= |s| && r == s[..|r|]
    ensures AllDigits(r)
    ensures |r| < |s| ==> !IsDigit(s[|r|])
  {
    if s != [] && IsDigit(s[0]) then
      var rest := DigitRun(s[1..]);
      assert s[..|rest| + 1] == [s[0]] + rest;
      [s[0]] + rest
    else []
  }

  /** The number a string of decimal digits spells, most significant digit first. */
  function DigitsValue(d: string): (v: nat)
    requires AllDigits(d)
  {
    if d == [] then 0 else DigitsValue(d[..|d| - 1]) * 10 + (d[|d| - 1] as int - '0' as int)
  }

  /** atoi(s): leading white space, an optional sign, then the longest run of digits.
      Overflow is not modelled: the value is the unbounded integer. */
  function Atoi(s: string): (r: int)
    ensures (forall i :: 0 <= i < |s| ==> !IsDigit(s[i])) ==> r == 0
  {
    var t := SkipSpace(s);
    if t != [] && t[0] == '-' then -(DigitsValue(DigitRun(t[1..])) as int)
    else if t != [] && t[0] == '+' then DigitsValue(DigitRun(t[1..]))
    else DigitsValue(DigitRun(t))
  }

  /** The decimal text of `n`, as printf("%d") writes it. */
  function Decimal(n: nat): (r: string)
    ensures r != [] && AllDigits(r)
  {
    var d := ['0' + (n % 10) as char];
    if n < 10 then d else Decimal(n / 10) + d
  }

  lemma {:induction false} DecimalValue(n: nat)
    ensures DigitsValue(Decimal(n)) == n
  {
    var r := Decimal(n);
    if n >= 10 {
      DecimalValue(n / 10);
      assert r[..|r| - 1] == Decimal(n / 10);
    }
  }

  lemma {:induction false} DigitRunOfDigits(d: string)
    requires AllDigits(d)
    ensures DigitRun(d) == d
  {
    if d != [] {
      DigitRunOfDigits(d[1..]);
      assert d == [d[0]] + d[1..];
    }
  }

  /** atoi of a non-empty run of digits is the number they spell, and with a minus
      sign in front its negation. */
  lemma {:induction false} AtoiDigits(d: string)
    requires d != [] && AllDigits(d)
    ensures Atoi(d) == DigitsValue(d)
    ensures Atoi("-" + d) == -(DigitsValue(d) as int)
  {
    DigitRunOfDigits(d);
    NoLeadingSpace(d);
    assert !IsSpace('-');
    NoLeadingSpace("-" + d);
    assert ("-" + d)[1..] == d;
  }

  /** White-space skipping stops at once before a character that is not white space. */
  lemma {:induction false} NoLeadingSpace(s: string)
    requires s != [] && !IsSpace(s[0])
    ensures SkipSpace(s) == s
  {
  }

  /** atoi reads back every number printed in decimal, with or without a minus sign. */
  lemma {:induction false} AtoiDecimal(n: nat)
    ensures Atoi(Decimal(n)) == n
    ensures Atoi("-" + Decimal(n)) == -(n as int)
  {
    DecimalValue(n);
    AtoiDigits(Decimal(n));
  }

  // ---------------------------------------------------------------------------
  // The record seen field by field, grouped by how an option sets it
  // ---------------------------------------------------------------------------

  /** The int field option `c` writes. */
  function IntOf(a: HlsArgs, c: char): int
    requires IsIntOption(c)
  {
    match c
    case 'W' => a.maxWidth
    case 'H' => a.maxHeight
    case 's' => a.liveStartOffsetSec
    case 'i' => a.liveDurationSec
    case 'I' => a.ignorePlaylistUrl
    case 'e' => a.refreshDelaySec
    case 'r' => a.openMaxRetries
    case _ => a.segmentDownloadRetries
  }

  /** The string field option `c` writes. */
  function StringOf(a: HlsArgs, c: char): Option<string>
    requires IsStringOption(c)
  {
    match c
    case 'A' => a.audioLang
    case 'o' => a.filename
    case 'u' => a.userAgent
    case 'C' => a.cookieFile
    case 'p' => a.proxyUri
    case 'k' => a.keyUriReplaceOld
    case 'n' => a.keyUriReplaceNew
    case _ => a.audioUrl
  }

  /** The bool field option `c` sets. */
  function FlagOf(a: HlsArgs, c: char): bool
    requires IsFlagOption(c)
  {
    match c
    case 'b' => a.useBest
    case 'f' => a.forceOverwrite
    case 'F' => a.forceIgnoreDrm
    case 't' => a.dumpTsUrls
    case 'd' => a.dumpDecCmd
    case _ => a.acceptPartialContent
  }

  /** `b` is `a` with at most its int option fields changed. */
  predicate SameButInts(a: HlsArgs, b: HlsArgs)
  {
    b == a.(maxWidth := b.maxWidth, maxHeight := b.maxHeight,
            liveStartOffsetSec := b.liveStartOffsetSec, liveDurationSec := b.liveDurationSec,
            ignorePlaylistUrl := b.ignorePlaylistUrl, refreshDelaySec := b.refreshDelaySec,
            openMaxRetries := b.openMaxRetries, segmentDownloadRetries := b.segmentDownloadRetries)
  }

  /** `b` is `a` with at most its string option fields changed. */
  predicate SameButStrings(a: HlsArgs, b: HlsArgs)
  {
    b == a.(audioLang := b.audioLang, filename := b.filename, userAgent := b.userAgent,
            cookieFile := b.cookieFile, proxyUri := b.proxyUri,
            keyUriReplaceOld := b.keyUriReplaceOld, keyUriReplaceNew := b.keyUriReplaceNew,
            audioUrl := b.audioUrl)
  }

  /** `b` is `a` with at most its flag option fields changed. */
  predicate SameButFlags(a: HlsArgs, b: HlsArgs)
  {
    b == a.(useBest := b.useBest, forceOverwrite := b.forceOverwrite,
            forceIgnoreDrm := b.forceIgnoreDrm, dumpTsUrls := b.dumpTsUrls,
            dumpDecCmd := b.dumpDecCmd, acceptPartialContent := b.acceptPartialContent)
  }

  /** `hls_args.<field> = v` for the int field of option `c`: that field becomes `v`
      and every other field, int or not, keeps its value. */
  function SetInt(a: HlsArgs, c: char, v: int): (r: HlsArgs)
    requires IsIntOption(c)
    ensures IntOf(r, c) == v
    ensures forall d :: IsIntOption(d) && d != c ==> IntOf(r, d) == IntOf(a, d)
    ensures SameButInts(a, r)
  {
    match c
    case 'W' => a.(maxWidth := v)
    case 'H' => a.(maxHeight := v)
    case 's' => a.(liveStartOffsetSec := v)
    case 'i' => a.(liveDurationSec := v)
    case 'I' => a.(ignorePlaylistUrl := v)
    case 'e' => a.(refreshDelaySec := v)
    case 'r' => a.(openMaxRetries := v)
    case _ => a.(segmentDownloadRetries := v)
  }

  /** `hls_args.<field> = optarg` for the string field of option `c`. */
  function SetString(a: HlsArgs, c: char, v: string): (r: HlsArgs)
    requires IsStringOption(c)
    ensures StringOf(r, c) == Some(v)
    ensures forall d :: IsStringOption(d) && d != c ==> StringOf(r, d) == StringOf(a, d)
    ensures SameButStrings(a, r)
  {
    match c
    case 'A' => a.(audioLang := Some(v))
    case 'o' => a.(filename := Some(v))
    case 'u' => a.(userAgent := Some(v))
    case 'C' => a.(cookieFile := Some(v))
    case 'p' => a.(proxyUri := Some(v))
    case 'k' => a.(keyUriReplaceOld := Some(v))
    case 'n' => a.(keyUriReplaceNew := Some(v))
    case _ => a.(audioUrl := Some(v))
  }

  /** `hls_args.<field> = true` for the bool field of option `c`. */
  function SetFlag(a: HlsArgs, c: char): (r: HlsArgs)
    requires IsFlagOption(c)
    ensures FlagOf(r, c)
    ensures forall d :: IsFlagOption(d) && d != c ==> FlagOf(r, d) == FlagOf(a, d)
    ensures SameButFlags(a, r)
  {
    match c
    case 'b' => a.(useBest := true)
    case 'f' => a.(forceOverwrite := true)
    case 'F' => a.(forceIgnoreDrm := true)
    case 't' => a.(dumpTsUrls := true)
    case 'd' => a.(dumpDecCmd := true)
    case _ => a.(acceptPartialContent := true)
  }

  // ---------------------------------------------------------------------------
  // One option
  // ---------------------------------------------------------------------------

  /** One pass of the switch in parse_argv's getopt loop. The cases that only store
      into a field are grouped by the kind of field; the rest are as written. */
  function Step(st: ParseState, t: Token): (r: ParseState)
    ensures st.headerIdx <= MaxCustomHeaders ==> r.headerIdx <= MaxCustomHeaders
    ensures r.failed <==> st.failed || BadToken(t)
  {
    var a := st.args;
    if IsIntOption(t.opt) then st.(args := SetInt(a, t.opt, Atoi(t.optarg)))
    else if IsStringOption(t.opt) then st.(args := SetString(a, t.opt, t.optarg))
    else if IsFlagOption(t.opt) then st.(args := SetFlag(a, t.opt))
    else
      match t.opt
      case 'v' => st.(args := a.(loglevel := a.loglevel + 1))
      case 'q' => st.(args := a.(loglevel := a.loglevel - 1))
      case 'h' =>
        if st.headerIdx < MaxCustomHeaders then
          ParseState(a.(customHeaders := a.customHeaders[st.headerIdx := Some(t.optarg)]),
                     st.headerIdx + 1, st.failed)
        else st
      case 'K' =>
        // key_value = malloc(KEYLEN); str_to_bin is only reached when the length is right
        var buf := Uninit(KeyLen);
        if |t.optarg| != 2 * KeyLen then st.(args := a.(keyValue := Some(buf)), failed := true)
        else
          var (data, rc) := StrToBin(buf, t.optarg, KeyLen);
          st.(args := a.(keyValue := Some(data)), failed := st.failed || rc != 0)
      // the source stores the optarg pointer into the int field: some non-zero value
      case 'O' => st.(args := a.(keepFragments := 1))
      case _ => st.(failed := true)
  }

  /** The options that are neither int, string nor flag options change none of
      those fields. */
  lemma {:induction false} StepOthers(st: ParseState, t: Token)
    requires !IsIntOption(t.opt) && !IsStringOption(t.opt) && !IsFlagOption(t.opt)
    ensures Step(st, t).args == st.args.(loglevel := Step(st, t).args.loglevel,
                                         keepFragments := Step(st, t).args.keepFragments,
                                         keyValue := Step(st, t).args.keyValue,
                                         customHeaders := Step(st, t).args.customHeaders)
    ensures t.opt != 'h' ==> Step(st, t).headerIdx == st.headerIdx
  {
    var a := st.args;
    var r := Step(st, t).args;
    if t.opt == 'v' || t.opt == 'q' {
      assert r == a.(loglevel := r.loglevel);
    } else if t.opt == 'h' {
      assert r == a.(customHeaders := r.customHeaders);
    } else if t.opt == 'K' {
      assert r == a.(keyValue := r.keyValue);
    } else if t.opt == 'O' {
      assert r == a.(keepFragments := 1);
    } else {
      assert r == a;
    }
  }

  /** What the remaining options do to the fields they do not share with the int,
      string and flag options. */
  lemma {:induction false} StepSpecial(st: ParseState, t: Token)
    requires !IsIntOption(t.opt) && !IsStringOption(t.opt) && !IsFlagOption(t.opt)
    ensures var a := st.args; var r := Step(st, t).args;
              && r.loglevel == a.loglevel + (if t.opt == 'v' then 1 else if t.opt == 'q' then -1 else 0)
              && r.keepFragments == (if t.opt == 'O' then 1 else a.keepFragments)
              && r.url == a.url && r.skipEncryption == a.skipEncryption
              && (t.opt != 'K' ==> r.keyValue == a.keyValue)
    ensures t.opt != 'h' ==>
              Step(st, t).headerIdx == st.headerIdx && Step(st, t).args.customHeaders == st.args.customHeaders
  {
    var a := st.args;
    var r := Step(st, t);
    if t.opt == 'v' || t.opt == 'q' {
      StepVerbosity(st, t);
    } else if t.opt == 'O' {
      StepKeepOption(st, t);
    } else if t.opt == 'h' {
      StepHeaderOption(st, t);
    } else if t.opt == 'K' {
      StepKeyOption(st, t);
    } else {
      StepUnknown(st, t);
    }
  }

  /** `-v` and `-q` move the log level by one and touch nothing else. */
  lemma {:induction false} StepVerbosity(st: ParseState, t: Token)
    requires t.opt == 'v' || t.opt == 'q'
    ensures var a := st.args; var r := Step(st, t).args;
              && r.loglevel == a.loglevel + (if t.opt == 'v' then 1 else -1)
              && r.keepFragments == a.keepFragments
              && r.url == a.url && r.skipEncryption == a.skipEncryption && r.keyValue == a.keyValue
              && r.customHeaders == a.customHeaders
    ensures Step(st, t).headerIdx == st.headerIdx
  {
    var a := st.args;
    var d := if t.opt == 'v' then 1 else -1;
    assert Step(st, t) == st.(args := a.(loglevel := a.loglevel + d));
  }

  /** `-O` sets keep_fragments and touches nothing else. */
  lemma StepKeepOption(st: ParseState, t: Token)
    requires t.opt == 'O'
    ensures var a := st.args; var r := Step(st, t).args;
              && r.loglevel == a.loglevel && r.keepFragments == 1
              && r.url == a.url && r.skipEncryption == a.skipEncryption && r.keyValue == a.keyValue
              && r.customHeaders == a.customHeaders
    ensures Step(st, t).headerIdx == st.headerIdx
  {
    assert Step(st, t) == st.(args := st.args.(keepFragments := 1));
  }

  /** A character the switch has no case for only sets the error flag. */
  lemma StepUnknown(st: ParseState, t: Token)
    requires !Recognised(t.opt)
    ensures var a := st.args; var r := Step(st, t).args;
              && r.loglevel == a.loglevel && r.keepFragments == a.keepFragments
              && r.url == a.url && r.skipEncryption == a.skipEncryption && r.keyValue == a.keyValue
              && r.customHeaders == a.customHeaders
    ensures Step(st, t).headerIdx == st.headerIdx
  {
  }

  /** The int, string and flag options change nothing but the fields of their group. */
  lemma StepGrouped(st: ParseState, t: Token)
    requires IsIntOption(t.opt) || IsStringOption(t.opt) || IsFlagOption(t.opt)
    ensures Step(st, t).headerIdx == st.headerIdx && Step(st, t).failed == st.failed
    ensures var a := st.args; var r := Step(st, t).args;
              r.loglevel == a.loglevel && r.keepFragments == a.keepFragments &&
              r.keyValue == a.keyValue && r.customHeaders == a.customHeaders &&
              r.url == a.url && r.skipEncryption == a.skipEncryption
  {
  }

  /** An int option sets its own field to atoi of its argument and no other int field. */
  lemma {:induction false} StepInt(st: ParseState, t: Token, c: char)
    requires IsIntOption(c)
    ensures IntOf(Step(st, t).args, c) == if t.opt == c then Atoi(t.optarg) else IntOf(st.args, c)
  {
    if !IsIntOption(t.opt) && !IsStringOption(t.opt) && !IsFlagOption(t.opt) {
      StepOthers(st, t);
    }
  }

  /** A string option stores its argument in its own field and touches no other. */
  lemma {:induction false} StepString(st: ParseState, t: Token, c: char)
    requires IsStringOption(c)
    ensures StringOf(Step(st, t).args, c) == if t.opt == c then Some(t.optarg) else StringOf(st.args, c)
  {
    if !IsIntOption(t.opt) && !IsStringOption(t.opt) && !IsFlagOption(t.opt) {
      StepOthers(st, t);
    }
  }

  /** A flag option sets its own flag and touches no other. */
  lemma {:induction false} StepFlag(st: ParseState, t: Token, c: char)
    requires IsFlagOption(c)
    ensures FlagOf(Step(st, t).args, c) == (FlagOf(st.args, c) || t.opt == c)
  {
    if !IsIntOption(t.opt) && !IsStringOption(t.opt) && !IsFlagOption(t.opt) {
      StepOthers(st, t);
    }
  }

  /** `-v` raises the log level by one, `-q` lowers it by one, nothing else moves it. */
  lemma {:induction false} StepLoglevel(st: ParseState, t: Token)
    ensures Step(st, t).args.loglevel ==
              st.args.loglevel + (if t.opt == 'v' then 1 else if t.opt == 'q' then -1 else 0)
  {
    if !IsIntOption(t.opt) && !IsStringOption(t.opt) && !IsFlagOption(t.opt) {
      StepSpecial(st, t);
    } else {
      StepGrouped(st, t);
    }
  }

  /** Only `-O` writes keep_fragments, and it leaves it non-zero. */
  lemma {:induction false} StepKeepFragments(st: ParseState, t: Token)
    ensures Step(st, t).args.keepFragments == if t.opt == 'O' then 1 else st.args.keepFragments
  {
    if !IsIntOption(t.opt) && !IsStringOption(t.opt) && !IsFlagOption(t.opt) {
      StepSpecial(st, t);
    } else {
      StepGrouped(st, t);
    }
  }

  /** No option writes the url or skip_encryption, and only `-K` writes key_value. */
  lemma {:induction false} StepUntouched(st: ParseState, t: Token)
    ensures Step(st, t).args.url == st.args.url
    ensures Step(st, t).args.skipEncryption == st.args.skipEncryption
    ensures t.opt != 'K' ==> Step(st, t).args.keyValue == st.args.keyValue
  {
    if !IsIntOption(t.opt) && !IsStringOption(t.opt) && !IsFlagOption(t.opt) {
      StepSpecial(st, t);
    } else {
      StepGrouped(st, t);
    }
  }

  /** `-h` fills the next header slot while one is free and is dropped otherwise;
      no other option touches the slots or the index. */
  lemma {:induction false} StepHeaders(st: ParseState, t: Token)
    ensures t.opt == 'h' && st.headerIdx < MaxCustomHeaders ==>
              Step(st, t).headerIdx == st.headerIdx + 1 &&
              Step(st, t).args.customHeaders == st.args.customHeaders[st.headerIdx := Some(t.optarg)]
    ensures t.opt != 'h' || st.headerIdx >= MaxCustomHeaders ==>
              Step(st, t).headerIdx == st.headerIdx &&
              Step(st, t).args.customHeaders == st.args.customHeaders
  {
    if t.opt == 'h' {
      StepHeaderOption(st, t);
    } else if !IsIntOption(t.opt) && !IsStringOption(t.opt) && !IsFlagOption(t.opt) {
      StepSpecial(st, t);
    } else {
      StepGrouped(st, t);
    }
  }

  lemma {:induction false} StepHeaderOption(st: ParseState, t: Token)
    requires t.opt == 'h'
    ensures var a := st.args; var r := Step(st, t).args;
              && r.loglevel == a.loglevel && r.keepFragments == a.keepFragments
              && r.url == a.url && r.skipEncryption == a.skipEncryption && r.keyValue == a.keyValue
    ensures st.headerIdx < MaxCustomHeaders ==>
              Step(st, t).headerIdx == st.headerIdx + 1 &&
              Step(st, t).args.customHeaders == st.args.customHeaders[st.headerIdx := Some(t.optarg)]
    ensures st.headerIdx >= MaxCustomHeaders ==>
              Step(st, t).headerIdx == st.headerIdx && Step(st, t).args.customHeaders == st.args.customHeaders
  {
    var a := st.args;
    if st.headerIdx < MaxCustomHeaders {
      var hs := a.customHeaders[st.headerIdx := Some(t.optarg)];
      assert Step(st, t) == ParseState(a.(customHeaders := hs), st.headerIdx + 1, st.failed);
    } else {
      assert Step(st, t) == st;
    }
  }

  // ---------------------------------------------------------------------------
  // The whole option stream
  // ---------------------------------------------------------------------------

  /** The getopt loop: the tokens applied in order, first to last. */
  function Fold(st: ParseState, toks: seq<Token>): (r: ParseState)
    ensures st.headerIdx <= MaxCustomHeaders ==> r.headerIdx <= MaxCustomHeaders
    ensures r.failed <==> st.failed || exists i :: 0 <= i < |toks| && BadToken(toks[i])
    decreases |toks|
  {
    if toks == [] then st
    else
      var prefix := toks[..|toks| - 1];
      var r := Step(Fold(st, prefix), toks[|toks| - 1]);
      BadInPrefix(toks, prefix);
      r
  }

  /** A bad token among all but the last is a bad token of the whole stream. */
  lemma BadInPrefix(toks: seq<Token>, prefix: seq<Token>)
    requires toks != [] && prefix == toks[..|toks| - 1]
    ensures (exists i :: 0 <= i < |toks| && BadToken(toks[i])) <==>
              (exists i :: 0 <= i < |prefix| && BadToken(prefix[i])) || BadToken(toks[|toks| - 1])
  {
    assert forall i :: 0 <= i < |prefix| ==> prefix[i] == toks[i];
  }

  /** parse_argv: the fold from `custom_header_idx = 0` and `ret = 0` over the
      record as it stood before the call, then the acceptance rule. It succeeds
      exactly when no option was bad and exactly one non-option argument is left,
      which becomes the url; otherwise print_help ends the process with status 0. */
  function ParseArgv(init: HlsArgs, toks: seq<Token>, positional: seq<string>): (r: Result<HlsArgs, Usage>)
    ensures r.Success? <==> (forall i :: 0 <= i < |toks| ==> !BadToken(toks[i])) && |positional| == 1
    ensures r.Success? ==> r.value.url == Some(positional[0])
    ensures r.Failure? ==> r.error == UsageExit(0)
  {
    var st := Fold(ParseState(init, 0, false), toks);
    if !st.failed && |positional| == 1 then Success(st.args.(url := Some(positional[0])))
    else Failure(UsageExit(0))
  }

  /** The argument of the last `c` option, if any. */
  function LastArg(toks: seq<Token>, c: char): Option<string>
  {
    if toks == [] then None
    else if toks[|toks| - 1].opt == c then Some(toks[|toks| - 1].optarg)
    else LastArg(toks[..|toks| - 1], c)
  }

  /** How many `c` options there are. */
  function Count(toks: seq<Token>, c: char): nat
  {
    if toks == [] then 0
    else Count(toks[..|toks| - 1], c) + (if toks[|toks| - 1].opt == c then 1 else 0)
  }

  /** The arguments of the `-h` options, in order. */
  function Headers(toks: seq<Token>): seq<string>
  {
    if toks == [] then []
    else Headers(toks[..|toks| - 1]) + (if toks[|toks| - 1].opt == 'h' then [toks[|toks| - 1].optarg] else [])
  }

  /** An int field ends as atoi of the last argument given for it, or as it started. */
  lemma {:induction false} LastIntWins(st: ParseState, toks: seq<Token>, c: char)
    requires IsIntOption(c)
    ensures IntOf(Fold(st, toks).args, c) ==
              match LastArg(toks, c) case None => IntOf(st.args, c) case Some(s) => Atoi(s)
  {
    if toks != [] {
      var prefix := toks[..|toks| - 1];
      LastIntWins(st, prefix, c);
      StepInt(Fold(st, prefix), toks[|toks| - 1], c);
    }
  }

  /** A string field ends as the last argument given for it, or as it started. */
  lemma {:induction false} LastStringWins(st: ParseState, toks: seq<Token>, c: char)
    requires IsStringOption(c)
    ensures StringOf(Fold(st, toks).args, c) ==
              match LastArg(toks, c) case None => StringOf(st.args, c) case Some(s) => Some(s)
  {
    if toks != [] {
      var prefix := toks[..|toks| - 1];
      LastStringWins(st, prefix, c);
      StepString(Fold(st, prefix), toks[|toks| - 1], c);
    }
  }

  /** A flag ends true exactly when it started true or its option occurs. */
  lemma {:induction false} FlagsSticky(st: ParseState, toks: seq<Token>, c: char)
    requires IsFlagOption(c)
    ensures FlagOf(Fold(st, toks).args, c) <==> FlagOf(st.args, c) || Count(toks, c) > 0
  {
    if toks != [] {
      var prefix := toks[..|toks| - 1];
      FlagsSticky(st, prefix, c);
      StepFlag(Fold(st, prefix), toks[|toks| - 1], c);
    }
  }

  /** `-O` leaves keep_fragments non-zero; without it the field keeps its value. */
  lemma {:induction false} KeepFragmentsSet(st: ParseState, toks: seq<Token>)
    ensures Fold(st, toks).args.keepFragments == if Count(toks, 'O') > 0 then 1 else st.args.keepFragments
  {
    if toks != [] {
      var prefix := toks[..|toks| - 1];
      KeepFragmentsSet(st, prefix);
      StepKeepFragments(Fold(st, prefix), toks[|toks| - 1]);
    }
  }

  /** The log level moves up once per `-v` and down once per `-q`, without bound. */
  lemma {:induction false} VerbosityCounts(st: ParseState, toks: seq<Token>)
    ensures Fold(st, toks).args.loglevel == st.args.loglevel + Count(toks, 'v') - Count(toks, 'q')
  {
    if toks != [] {
      var prefix := toks[..|toks| - 1];
      VerbosityCounts(st, prefix);
      StepLoglevel(Fold(st, prefix), toks[|toks| - 1]);
    }
  }

  /** The url, skip_encryption and, unless `-K` occurs, key_value are never set by an
      option. */
  lemma {:induction false} Untouched(st: ParseState, toks: seq<Token>)
    ensures Fold(st, toks).args.url == st.args.url
    ensures Fold(st, toks).args.skipEncryption == st.args.skipEncryption
    ensures Count(toks, 'K') == 0 ==> Fold(st, toks).args.keyValue == st.args.keyValue
  {
    if toks != [] {
      var prefix := toks[..|toks| - 1];
      Untouched(st, prefix);
      StepUntouched(Fold(st, prefix), toks[|toks| - 1]);
    }
  }

  function Min(a: int, b: int): int
  {
    if a < b then a else b
  }

  /** Headers are stored in order from the current index on; once the index reaches
      HLSDL_MAX_NUM_OF_CUSTOM_HEADERS the rest are dropped, and no other slot changes. */
  lemma {:induction false} HeadersInOrder(st: ParseState, toks: seq<Token>)
    requires st.headerIdx <= MaxCustomHeaders
    ensures HeadersStored(st, Fold(st, toks), Headers(toks))
  {
    if toks != [] {
      var prefix := toks[..|toks| - 1];
      var t := toks[|toks| - 1];
      HeadersInOrder(st, prefix);
      var p := Fold(st, prefix);
      assert Fold(st, toks) == Step(p, t);
      StepHeaders(p, t);
      HeadersStoredStep(st, p, t, Headers(prefix), Headers(toks));
    }
  }

  /** After `hs`, the `-h` arguments so far, the index has moved on by their number,
      capped at HLSDL_MAX_NUM_OF_CUSTOM_HEADERS; the slots passed over hold them in
      order, and every other slot is as it was in `st`. */
  predicate HeadersStored(st: ParseState, r: ParseState, hs: seq<string>)
  {
    && r.headerIdx == Min(MaxCustomHeaders, st.headerIdx + |hs|)
    && (forall k :: st.headerIdx <= k < r.headerIdx ==>
          r.args.customHeaders[k] == Some(hs[k - st.headerIdx]))
    && (forall k :: 0 <= k < MaxCustomHeaders && !(st.headerIdx <= k < r.headerIdx) ==>
          r.args.customHeaders[k] == st.args.customHeaders[k])
  }

  /** One more option keeps the header slots as HeadersStored describes them. */
  lemma {:induction false} HeadersStoredStep(st: ParseState, p: ParseState, t: Token, hp: seq<string>, hs: seq<string>)
    requires st.headerIdx <= MaxCustomHeaders && HeadersStored(st, p, hp)
    requires hs == hp + (if t.opt == 'h' then [t.optarg] else [])
    requires t.opt == 'h' && p.headerIdx < MaxCustomHeaders ==>
               Step(p, t).headerIdx == p.headerIdx + 1 &&
               Step(p, t).args.customHeaders == p.args.customHeaders[p.headerIdx := Some(t.optarg)]
    requires t.opt != 'h' || p.headerIdx >= MaxCustomHeaders ==>
               Step(p, t).headerIdx == p.headerIdx &&
               Step(p, t).args.customHeaders == p.args.customHeaders
    ensures HeadersStored(st, Step(p, t), hs)
  {
    var r := Step(p, t);
    if t.opt == 'h' && p.headerIdx < MaxCustomHeaders {
      assert p.headerIdx == st.headerIdx + |hp|;
      forall k | st.headerIdx <= k < r.headerIdx
        ensures r.args.customHeaders[k] == Some(hs[k - st.headerIdx])
      {
        if k < p.headerIdx {
          assert hs[k - st.headerIdx] == hp[k - st.headerIdx];
        }
      }
    }
  }

  /** A `-K` hexstring of the right length is decoded into the key buffer pair by
      pair; with a wrong length the buffer is left as malloc returned it. */
  lemma {:induction false} KeyValueSet(st: ParseState, t: Token)
    requires t.opt == 'K'
    ensures |t.optarg| != 2 * KeyLen ==> Step(st, t).args.keyValue == Some(Uninit(KeyLen))
    ensures |t.optarg| == 2 * KeyLen ==>
              Step(st, t).args.keyValue.Some? && |Step(st, t).args.keyValue.value| == KeyLen &&
              forall i :: 0 <= i < KeyLen && IsHexDigit(t.optarg[2 * i]) && IsHexDigit(t.optarg[2 * i + 1]) ==>
                Step(st, t).args.keyValue.value[i] ==
                  Some(16 * HexValue(t.optarg[2 * i]) + HexValue(t.optarg[2 * i + 1]))
  {
    StepKeyOption(st, t);
    if |t.optarg| == 2 * KeyLen {
      assert PairCount(t.optarg) == KeyLen;
      var d := StrToBin(Uninit(KeyLen), t.optarg, KeyLen).0;
      assert Step(st, t).args.keyValue == Some(d);
      assert |d| == KeyLen;
    }
  }

  lemma StepKeyOption(st: ParseState, t: Token)
    requires t.opt == 'K'
    ensures var a := st.args; var r := Step(st, t).args;
              && r.loglevel == a.loglevel && r.keepFragments == a.keepFragments
              && r.url == a.url && r.skipEncryption == a.skipEncryption
              && r.customHeaders == a.customHeaders
    ensures Step(st, t).headerIdx == st.headerIdx
    ensures |t.optarg| != 2 * KeyLen ==> Step(st, t).args.keyValue == Some(Uninit(KeyLen))
    ensures |t.optarg| == 2 * KeyLen ==>
              Step(st, t).args.keyValue == Some(StrToBin(Uninit(KeyLen), t.optarg, KeyLen).0)
  {
    var a := st.args;
    if |t.optarg| != 2 * KeyLen {
      assert Step(st, t) == st.(args := a.(keyValue := Some(Uninit(KeyLen))), failed := true);
    } else {
      var d := StrToBin(Uninit(KeyLen), t.optarg, KeyLen);
      assert Step(st, t) == st.(args := a.(keyValue := Some(d.0)), failed := st.failed || d.1 != 0);
    }
  }

  /** `-K` with the "%02x" text of a 16-byte key stores exactly that key. */
  lemma {:induction false} KeyRoundTrip(st: ParseState, key: seq<Byte>)
    requires |key| == KeyLen
    ensures Step(st, Token('K', EncodeHex(key))).args.keyValue == Some(Known(key))
    ensures Step(st, Token('K', EncodeHex(key))).failed == st.failed
  {
    EncodeThenDecode(key, Uninit(KeyLen), KeyLen);
  }

  /** With 256 or more `-h` options and nothing else, a successful parse keeps the
      first 256 headers in order. */
  lemma {:induction false} HeaderCapacity(init: HlsArgs, hs: seq<string>, url: string)
    requires |hs| >= MaxCustomHeaders
    ensures var r := ParseArgv(init, seq(|hs|, i requires 0 <= i < |hs| => Token('h', hs[i])), [url]);
              r.Success? && r.value.customHeaders == seq(MaxCustomHeaders, k requires 0 <= k < MaxCustomHeaders => Some(hs[k]))
  {
    var toks := seq(|hs|, i requires 0 <= i < |hs| => Token('h', hs[i]));
    HeadersOfOnlyHeaders(hs);
    var st := ParseState(init, 0, false);
    HeadersInOrder(st, toks);
    assert forall i :: 0 <= i < |toks| ==> !BadToken(toks[i]);
    var r := ParseArgv(init, toks, [url]);
    assert r.value.customHeaders == Fold(st, toks).args.customHeaders;
  }

  lemma {:induction false} HeadersOfOnlyHeaders(hs: seq<string>)
    ensures Headers(seq(|hs|, i requires 0 <= i < |hs| => Token('h', hs[i]))) == hs
  {
    var toks := seq(|hs|, i requires 0 <= i < |hs| => Token('h', hs[i]));
    if hs != [] {
      var pre := hs[..|hs| - 1];
      HeadersOfOnlyHeaders(pre);
      assert toks[..|toks| - 1] == seq(|pre|, i requires 0 <= i < |pre| => Token('h', pre[i]));
      assert hs == pre + [hs[|hs| - 1]];
    }
  }

  /** The getopt loop over two options. */
  lemma {:induction false} FoldTwo(st: ParseState, t0: Token, t1: Token)
    ensures Fold(st, [t0, t1]) == Step(Step(st, t0), t1)
  {
    var toks := [t0, t1];
    assert toks[..1] == [t0];
    assert [t0][..0] == [];
    assert Fold(st, [t0]) == Step(Fold(st, []), t0);
    assert Fold(st, toks) == Step(Fold(st, [t0]), t1);
  }

  /** An int option with a decimal argument stores the number it spells. */
  lemma {:induction false} StepDecimal(st: ParseState, c: char, n: nat)
    requires IsIntOption(c)
    ensures Step(st, Token(c, Decimal(n))) == st.(args := SetInt(st.args, c, n))
  {
    AtoiDecimal(n);
  }

  /** `-W 640 -H 360 url` from the zeroed record: width and height set, the url
      taken, every other field at its default. */
  lemma {:induction false} WidthHeightExample()
    ensures ParseArgv(ZeroArgs(), [Token('W', "640"), Token('H', "360")], ["https://example.com/a.m3u8"])
            == Success(ZeroArgs().(maxWidth := 640, maxHeight := 360, url := Some("https://example.com/a.m3u8")))
  {
    assert Decimal(640) == "640";
    assert Decimal(360) == "360";
    var st0 := ParseState(ZeroArgs(), 0, false);
    FoldTwo(st0, Token('W', "640"), Token('H', "360"));
    StepDecimal(st0, 'W', 640);
    var st1 := ParseState(ZeroArgs().(maxWidth := 640), 0, false);
    assert Step(st0, Token('W', "640")) == st1;
    StepDecimal(st1, 'H', 360);
    assert Step(st1, Token('H', "360")) == ParseState(ZeroArgs().(maxWidth := 640, maxHeight := 360), 0, false);
  }
}
