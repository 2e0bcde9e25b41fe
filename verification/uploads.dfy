/** The request and upload guards of `utils.py`: the per-key rate limit,
    the client address, the file size and type checks and the filename
    sanitiser. */
module Uploads {
  import opened Wrappers
  import opened Text
  import opened Numerals

  // ---------------------------------------------------------------- rate limit

  /** The cache key: the user id when authenticated, the client address
      otherwise. */
  function RateLimitKey(prefix: string, userId: Option<nat>, clientIp: string): (key: string)
    ensures userId.Some? ==> key == "ratelimit:" + prefix + ":user_" + NatToString(userId.value)
    ensures userId.None? ==> key == "ratelimit:" + prefix + ":ip_" + clientIp
  {
    "ratelimit:" + prefix + ":" + (if userId.Some? then "user_" + NatToString(userId.value) else "ip_" + clientIp)
  }

  /** Authenticated users and anonymous addresses never share a key. */
  lemma RateLimitKeysSeparate(prefix: string, id: nat, ip: string)
    ensures RateLimitKey(prefix, Some(id), ip) != RateLimitKey(prefix, None, ip)
  {
    var a := RateLimitKey(prefix, Some(id), ip);
    var b := RateLimitKey(prefix, None, ip);
    var n := |"ratelimit:" + prefix + ":"|;
    assert a[n] == 'u';
    assert b[n] == 'i';
  }

  /** The counters in the cache; an absent key counts 0. */
  type Counters = map<string, nat>

  function CountOf(c: Counters, key: string): nat {
    if key in c then c[key] else 0
  }

  /** One request through the wrapper: refused (429) when the stored count
      has reached the limit, otherwise admitted with the count raised by 1. */
  function Admit(c: Counters, key: string, limit: nat): (r: (bool, Counters))
    ensures r.0 <==> CountOf(c, key) < limit
    ensures r.0 ==> r.1 == c[key := CountOf(c, key) + 1]
    ensures !r.0 ==> r.1 == c
  {
    if CountOf(c, key) >= limit then (false, c) else (true, c[key := CountOf(c, key) + 1])
  }

  /** `n` requests on one key within one period: how many are admitted. */
  function AdmittedOf(c: Counters, key: string, limit: nat, n: nat): nat
    decreases n
  {
    if n == 0 then 0
    else
      var (ok, c2) := Admit(c, key, limit);
      (if ok then 1 else 0) + AdmittedOf(c2, key, limit, n - 1)
  }

  /** Within a period exactly `min(n, limit - count)` requests get through;
      in particular never more than `limit` from an empty counter. */
  lemma {:induction false} AdmittedBound(c: Counters, key: string, limit: nat, n: nat)
    ensures CountOf(c, key) >= limit ==> AdmittedOf(c, key, limit, n) == 0
    ensures CountOf(c, key) < limit ==>
      AdmittedOf(c, key, limit, n) == (if n <= limit - CountOf(c, key) then n else limit - CountOf(c, key))
    decreases n
  {
    if n > 0 {
      var (ok, c2) := Admit(c, key, limit);
      AdmittedBound(c2, key, limit, n - 1);
    }
  }

  /** `get_client_ip`: the first entry of a non-empty X-Forwarded-For,
      stripped; otherwise REMOTE_ADDR, or "". */
  function ClientIp(forwardedFor: Option<string>, remoteAddr: Option<string>): (ip: string)
    ensures forwardedFor.Some? && forwardedFor.value != "" ==>
      ip == Strip(Split(forwardedFor.value, ',')[0]) && ',' !in ip
    ensures (forwardedFor.None? || forwardedFor.value == "") && remoteAddr.None? ==> ip == ""
    ensures (forwardedFor.None? || forwardedFor.value == "") && remoteAddr.Some? ==> ip == remoteAddr.value
  {
    if forwardedFor.Some? && forwardedFor.value != "" then
      var first := Split(forwardedFor.value, ',')[0];
      StripKeepsOut(first, ',');
      Strip(first)
    else if remoteAddr.Some? then remoteAddr.value
    else ""
  }

  /** Behind proxies the client is the first hop of X-Forwarded-For, whatever
      the later hops and REMOTE_ADDR say. */
  lemma {:induction false} ClientIpFirstHop(first: string, rest: string, remoteAddr: Option<string>)
    requires ',' !in first
    ensures ClientIp(Some(first + "," + rest), remoteAddr) == Strip(first)
  {
    SplitFirst(first, rest);
  }

  /** The first piece of `split(',')` is the text before the first comma. */
  lemma {:induction false} SplitFirst(first: string, rest: string)
    requires ',' !in first
    ensures Split(first + "," + rest, ',')[0] == first
    decreases |first|
  {
    var h := first + "," + rest;
    if |first| == 0 {
      assert h[0] == ',';
    } else {
      assert h[0] == first[0] && h[0] != ',';
      assert h[1..] == first[1..] + "," + rest;
      SplitFirst(first[1..], rest);
      assert first == [first[0]] + first[1..];
    }
  }

  // ---------------------------------------------------------------- size and type

  const MiB := 1024 * 1024
  const MaxImageSize := 10 * MiB
  const MaxDocumentSize := 50 * MiB
  const MaxChatFileSize := 20 * MiB

  /** A MIME table: each allowed type with its allowed extensions. */
  type MimeTable = seq<(string, seq<string>)>

  const ImageTypes: MimeTable := [
    ("image/jpeg", [".jpg", ".jpeg"]), ("image/png", [".png"]), ("image/gif", [".gif"]),
    ("image/webp", [".webp"])]

  const DocumentTypes: MimeTable := [
    ("application/pdf", [".pdf"]), ("application/msword", [".doc"]),
    ("application/vnd.openxmlformats-officedocument.wordprocessingml.document", [".docx"]),
    ("application/vnd.ms-excel", [".xls"]),
    ("application/vnd.openxmlformats-officedocument.spreadsheetml.sheet", [".xlsx"]),
    ("application/vnd.ms-powerpoint", [".ppt"]),
    ("application/vnd.openxmlformats-officedocument.presentationml.presentation", [".pptx"]),
    ("text/plain", [".txt"]), ("application/zip", [".zip"]), ("application/x-rar-compressed", [".rar"])]

  /** `{**ALLOWED_IMAGE_TYPES, **ALLOWED_DOCUMENT_TYPES}` (the keys are
      disjoint, so nothing is overridden). */
  const ChatTypes: MimeTable := ImageTypes + DocumentTypes

  /** The extensions listed for a MIME type, if the type is listed. */
  function ExtensionsOf(table: MimeTable, mime: string): (r: Option<seq<string>>)
    ensures r.None? <==> forall i :: 0 <= i < |table| ==> table[i].0 != mime
    ensures r.Some? ==> exists i :: 0 <= i < |table| && table[i] == (mime, r.value)
  {
    if |table| == 0 then None
    else if table[0].0 == mime then Some(table[0].1)
    else
      var r := ExtensionsOf(table[1..], mime);
      assert r.Some? ==> exists i :: 1 <= i < |table| && table[i] == (mime, r.value) by {
        if r.Some? {
          var i :| 0 <= i < |table[1..]| && table[1..][i] == (mime, r.value);
          assert table[i + 1] == (mime, r.value);
        }
      }
      r
  }

  /** `os.path.splitext` (POSIX): the extension starts at the last dot,
      provided that dot lies in the last path component and something other
      than dots comes before it in that component. */
  function SplitExt(p: string): (r: (string, string))
    ensures r.0 + r.1 == p
    ensures r.1 == "" || r.1[0] == '.'
  {
    var dot := LastIndexOf(p, '.');
    var sep := LastIndexOf(p, '/');
    if dot > sep && exists k :: sep < k < dot && p[k] != '.' then (p[..dot], p[dot..])
    else (p, "")
  }

  /** Index of the last `c` in `s`, or -1. */
  function LastIndexOf(s: string, c: char): (i: int)
    ensures -1 <= i < |s| && (i >= 0 ==> s[i] == c)
    ensures forall k :: i < k < |s| ==> s[k] != c
  {
    if |s| == 0 then -1 else if s[|s| - 1] == c then |s| - 1 else LastIndexOf(s[..|s| - 1], c)
  }

  datatype UploadError =
    | FileMissing
    | TooLarge(size: nat, maxSize: nat)
    | TypeNotAllowed(mime: string)
    | ExtensionMismatch
    | InspectionFailed

  /** An uploaded file: its name, size, and the MIME type its check settles
      on: the one `magic` sniffs from the first bytes, or the declared
      `content_type` when `magic` fails or is missing; an exception only when
      reading or seeking the file itself fails. */
  datatype Upload = Upload(name: string, size: nat, sniffed: Read<string>)

  /** `validate_file_size`: equality is accepted. */
  function ValidateSize(f: Upload, maxSize: nat): (r: Option<UploadError>)
    ensures r.None? <==> f.size <= maxSize
    ensures r.Some? ==> r.value == TooLarge(f.size, maxSize)
  {
    if f.size > maxSize then Some(TooLarge(f.size, maxSize)) else None
  }

  /** `validate_file_type`. */
  function ValidateType(f: Upload, table: MimeTable): (r: Option<UploadError>)
    ensures r.None? <==> f.sniffed.Returned? && ExtensionsOf(table, f.sniffed.value).Some?
                         && Lower(SplitExt(f.name).1) in ExtensionsOf(table, f.sniffed.value).value
  {
    match f.sniffed
    case Raised(_) => Some(InspectionFailed)
    case Returned(mime) =>
      match ExtensionsOf(table, mime)
      case None => Some(TypeNotAllowed(mime))
      case Some(exts) => if Lower(SplitExt(f.name).1) in exts then None else Some(ExtensionMismatch)
  }

  datatype FileKind = ImageFile | DocumentFile | ChatFile

  function TableFor(kind: FileKind): MimeTable {
    match kind
    case ImageFile => ImageTypes
    case DocumentFile => DocumentTypes
    case ChatFile => ChatTypes
  }

  function MaxSizeFor(kind: FileKind): nat {
    match kind
    case ImageFile => MaxImageSize
    case DocumentFile => MaxDocumentSize
    case ChatFile => MaxChatFileSize
  }

  /** `validate_uploaded_file`: a missing file first, then the size, then
      the type. */
  function ValidateUpload(file: Option<Upload>, kind: FileKind): (r: Option<UploadError>)
    ensures file.None? ==> r == Some(FileMissing)
    ensures file.Some? && file.value.size > MaxSizeFor(kind) ==> r == Some(TooLarge(file.value.size, MaxSizeFor(kind)))
    ensures file.Some? && file.value.size <= MaxSizeFor(kind) ==> r == ValidateType(file.value, TableFor(kind))
  {
    match file
    case None => Some(FileMissing)
    case Some(f) =>
      match ValidateSize(f, MaxSizeFor(kind))
      case Some(e) => Some(e)
      case None => ValidateType(f, TableFor(kind))
  }

  /** An accepted file is within its size limit and its sniffed type and
      extension are a listed pair. */
  lemma AcceptedUpload(f: Upload, kind: FileKind)
    requires ValidateUpload(Some(f), kind).None?
    ensures f.size <= MaxSizeFor(kind)
    ensures f.sniffed.Returned?
    ensures exists i :: 0 <= i < |TableFor(kind)| && TableFor(kind)[i].0 == f.sniffed.value
                        && Lower(SplitExt(f.name).1) in TableFor(kind)[i].1
  {
  }

  // ---------------------------------------------------------------- filename

  /** `\w` for ASCII text: letters, digits and underscore. */
  predicate WordChar(c: char) {
    ('a' <= c <= 'z') || ('A' <= c <= 'Z') || ('0' <= c <= '9') || c == '_'
  }

  /** What `[^\w\s\-\.]` does not remove. */
  predicate KeptChar(c: char) {
    WordChar(c) || IsSpace(c) || c == '-' || c == '.'
  }

  /** The characters a sanitised name may hold. */
  predicate SafeChar(c: char) {
    WordChar(c) || c == '-' || c == '.'
  }

  /** `re.sub(r'[^\w\s\-\.]', '', s)`. */
  function RemoveUnsafe(s: string): (r: string)
    ensures |r| <= |s|
    ensures forall k :: 0 <= k < |r| ==> KeptChar(r[k])
  {
    if |s| == 0 then "" else (if KeptChar(s[0]) then [s[0]] else "") + RemoveUnsafe(s[1..])
  }

  /** `re.sub(r'\s+', '_', s)`. */
  function CollapseSpaces(s: string): (r: string)
    ensures forall k :: 0 <= k < |r| ==> !IsSpace(r[k])
    ensures (forall k :: 0 <= k < |s| ==> KeptChar(s[k])) ==> forall k :: 0 <= k < |r| ==> SafeChar(r[k])
    ensures |r| <= |s|
    ensures |s| > 0 && s[0] != '.' ==> |r| > 0 && r[0] != '.'
    decreases |s|
  {
    if |s| == 0 then ""
    else if IsSpace(s[0]) then "_" + CollapseSpaces(s[LeadingSpaces(s)..])
    else [s[0]] + CollapseSpaces(s[1..])
  }

  /** `s.strip('.')`. */
  function StripDots(s: string): (r: string)
    ensures |r| <= |s|
    ensures forall k :: 0 <= k < |r| ==> r[k] in s
    ensures r != "" ==> r[0] != '.' && r[|r| - 1] != '.'
    decreases |s|
  {
    if |s| == 0 then ""
    else if s[0] == '.' then StripDots(s[1..])
    else if s[|s| - 1] == '.' then StripDots(s[..|s| - 1])
    else s
  }

  const MaxNameLength := 100
  const StemLength := 95

  /** The length rule: a name over 100 characters keeps the first 95
      characters of its stem and its whole extension. */
  function Shorten(s: string): (r: string)
    ensures |s| <= MaxNameLength ==> r == s
    ensures |s| > MaxNameLength ==>
      r == (if |SplitExt(s).0| <= StemLength then SplitExt(s).0 else SplitExt(s).0[..StemLength]) + SplitExt(s).1
  {
    if |s| <= MaxNameLength then s
    else
      var (name, ext) := SplitExt(s);
      (if |name| <= StemLength then name else name[..StemLength]) + ext
  }

  /** `sanitize_filename` (after the Unicode normalisation). */
  function SanitizeFilename(name: string): (r: string)
    ensures r != ""
  {
    var s := Shorten(StripDots(CollapseSpaces(RemoveUnsafe(name))));
    if s == "" then "file" else s
  }

  lemma ShortenKeepsChars(s: string)
    ensures forall k :: 0 <= k < |Shorten(s)| ==> Shorten(s)[k] in s
  {
    if |s| > MaxNameLength {
      var (name, ext) := SplitExt(s);
      var stem := if |name| <= StemLength then name else name[..StemLength];
      forall k | 0 <= k < |stem + ext|
        ensures (stem + ext)[k] in s
      {
        if k < |stem| {
          assert (stem + ext)[k] == s[k];
        } else {
          assert (stem + ext)[k] == s[|name| + k - |stem|];
        }
      }
    }
  }

  /** The sanitised name is never empty, holds only word characters, '-'
      and '.', has no whitespace and no path separator, and does not start
      with a dot (so it is never hidden and never `..`). */
  lemma SanitizedIsSafe(name: string)
    ensures var r := SanitizeFilename(name);
      r != "" && r[0] != '.' && (forall k :: 0 <= k < |r| ==> SafeChar(r[k]))
  {
    var c := CollapseSpaces(RemoveUnsafe(name));
    var d := StripDots(c);
    var s := Shorten(d);
    ShortenKeepsChars(d);
    assert forall k :: 0 <= k < |s| ==> s[k] in d;
    assert forall k :: 0 <= k < |d| ==> d[k] in c;
    if s != "" {
      if |d| > MaxNameLength {
        ShortenStart(d);
      }
    }
  }

  /** Shortening keeps the first character of a name that has no leading
      dot. */
  lemma ShortenStart(d: string)
    requires |d| > MaxNameLength && d[0] != '.'
    ensures |Shorten(d)| > 0 && Shorten(d)[0] == d[0]
  {
  }

  /** A shortened name is at most 95 characters plus its extension, so at
      most 100 whenever the extension has at most 5 characters. */
  lemma ShortenLength(s: string)
    ensures |Shorten(s)| <= MaxNameLength || |Shorten(s)| <= StemLength + |SplitExt(s).1|
    ensures |SplitExt(s).1| <= MaxNameLength - StemLength ==> |Shorten(s)| <= MaxNameLength
  {
  }
}
