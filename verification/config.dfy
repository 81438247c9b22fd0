/** The `hls_args` configuration record of misc.h, together with the constants and
    macros declared beside it. */
module Config {
  import opened Wrappers

  /** HLSDL_MAX_NUM_OF_CUSTOM_HEADERS: slots for `-h` headers in the record. */
  const MaxCustomHeaders: nat := 256

  /** KEYLEN: bytes of an AES-128 key; `-K` takes twice as many hex characters. */
  const KeyLen: nat := 16

  type Byte = x: int | 0 <= x < 256

  /** One byte of a heap buffer: None while nothing has written it since malloc. */
  type Cell = Option<Byte>

  /** A heap buffer of `n` bytes as malloc returns it. */
  function Uninit(n: nat): seq<Cell>
  {
    seq(n, _ => None)
  }

  /** The MAX(a, b) macro. */
  function Max(a: int, b: int): (r: int)
    ensures r >= a && r >= b
    ensures r == a || r == b
  {
    if a > b then a else b
  }

  /** The STRLEN_BTS(LEN) macro. */
  function StrlenBts(len: int): int
  {
    (len * 2) + 2
  }

  /** The `custom_headers` array: exactly MaxCustomHeaders slots, None where NULL. */
  type HeaderSlots = s: seq<Option<string>> | |s| == MaxCustomHeaders
    witness seq(MaxCustomHeaders, _ => None)

  /** `struct hls_args`. Pointers are `Option`s; `cookie_file_mutex` is not modelled. */
  datatype HlsArgs = HlsArgs(
    loglevel: int,
    useBest: bool,
    maxWidth: int,
    maxHeight: int,
    audioLang: Option<string>,
    skipEncryption: int,
    forceOverwrite: bool,
    forceIgnoreDrm: bool,
    dumpTsUrls: bool,
    dumpDecCmd: bool,
    liveStartOffsetSec: int,
    liveDurationSec: int,
    ignorePlaylistUrl: int,
    refreshDelaySec: int,
    segmentDownloadRetries: int,
    openMaxRetries: int,
    filename: Option<string>,
    keepFragments: int,
    url: Option<string>,
    audioUrl: Option<string>,
    userAgent: Option<string>,
    proxyUri: Option<string>,
    customHeaders: HeaderSlots,
    keyUriReplaceOld: Option<string>,
    keyUriReplaceNew: Option<string>,
    keyValue: Option<seq<Cell>>,
    cookieFile: Option<string>,
    acceptPartialContent: bool)

  /** The global `hls_args` as C zero-initialises it: every number 0, every flag
      false, every pointer NULL. */
  function ZeroArgs(): HlsArgs
  {
    HlsArgs(0, false, 0, 0, None, 0, false, false, false, false, 0, 0, 0, 0, 0, 0,
            None, 0, None, None, None, None, seq(MaxCustomHeaders, _ => None),
            None, None, None, None, false)
  }
}
