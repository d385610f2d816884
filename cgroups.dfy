/** The pure core of CRI-O's cgroup manager set-up: choosing a manager by
    name, naming a container's cgroup, and deciding from the text of a
    cgroup's memory-limit file whether a pod's minimum memory fits under it.
    Reading the file, and asking the node whether it runs cgroup v2, are
    inputs here. */
module Cgmgr {
  import opened Text

  const CrioPrefix := "crio"
  const CgroupfsCgroupManager := "cgroupfs"
  const SystemdCgroupManager := "systemd"
  const DefaultCgroupManager := SystemdCgroupManager

  const CgroupMemoryPathV1 := "/sys/fs/cgroup/memory"
  const CgroupMemoryMaxFileV1 := "memory.limit_in_bytes"
  const CgroupMemoryPathV2 := "/sys/fs/cgroup"
  const CgroupMemoryMaxFileV2 := "memory.max"

  const MinInt64: int := -0x8000_0000_0000_0000
  const MaxInt64: int := 0x7FFF_FFFF_FFFF_FFFF
  const MaxUint64: int := 0xFFFF_FFFF_FFFF_FFFF

  /** Go's int64. */
  type Int64 = x: int | MinInt64 <= x <= MaxInt64

  datatype Option<T> = None | Some(value: T)

  datatype Result<T, E> = Ok(value: T) | Err(error: E)

  // ----- Choosing a manager -----

  /** The two managers. A cgroupfs manager knows where the memory-limit files
      live; on cgroup v1 it also keeps maps of per-container and per-sandbox
      cgroup managers, which start empty. */
  datatype Manager =
    | SystemdManager
    | CgroupfsManager(memoryPath: string, memoryMaxFile: string, v1ManagerMaps: bool)

  datatype SetupError = InvalidCgroupManager(name: string)  // "invalid cgroup manager: %s"

  /** SetCgroupManager: the manager a configured name selects. */
  function SetCgroupManager(cgroupManager: string, cgroupIsV2: bool): (r: Result<Manager, SetupError>)
    ensures r.Ok? <==> cgroupManager == SystemdCgroupManager || cgroupManager == CgroupfsCgroupManager
    ensures r.Err? ==> r.error == InvalidCgroupManager(cgroupManager)
    ensures r.Ok? && r.value.CgroupfsManager? ==>
      if cgroupIsV2 then r.value == CgroupfsManager(CgroupMemoryPathV2, CgroupMemoryMaxFileV2, false)
      else r.value == CgroupfsManager(CgroupMemoryPathV1, CgroupMemoryMaxFileV1, true)
  {
    if cgroupManager == SystemdCgroupManager then Ok(SystemdManager)
    else if cgroupManager == CgroupfsCgroupManager then
      if cgroupIsV2 then Ok(CgroupfsManager(CgroupMemoryPathV2, CgroupMemoryMaxFileV2, false))
      else Ok(CgroupfsManager(CgroupMemoryPathV1, CgroupMemoryMaxFileV1, true))
    else Err(InvalidCgroupManager(cgroupManager))
  }

  /** Name(): "systemd" or "cgroupfs". */
  function Name(m: Manager): string {
    if m.SystemdManager? then SystemdCgroupManager else CgroupfsCgroupManager
  }

  predicate IsSystemd(m: Manager) {
    m.SystemdManager?
  }

  /** The manager a name selects answers to that name, and is the systemd
      one exactly when the name is "systemd". */
  lemma SelectedManagerNamed(cgroupManager: string, cgroupIsV2: bool)
    requires SetCgroupManager(cgroupManager, cgroupIsV2).Ok?
    ensures var m := SetCgroupManager(cgroupManager, cgroupIsV2).value;
      Name(m) == cgroupManager && (IsSystemd(m) <==> cgroupManager == SystemdCgroupManager)
  {
  }

  /** New: the default name always selects a manager, so New never panics. */
  lemma DefaultManagerSelected(cgroupIsV2: bool)
    ensures SetCgroupManager(DefaultCgroupManager, cgroupIsV2) == Ok(SystemdManager)
  {
  }

  // ----- Naming a container's cgroup -----

  /** containerCgroupPath: the ID behind "crio-". */
  function ContainerCgroupPath(id: string): (r: string)
    ensures HasPrefix(r, CrioPrefix + "-") && TrimPrefix(r, CrioPrefix + "-") == id
  {
    var prefix := CrioPrefix + "-";
    var r := prefix + id;
    assert r[..|prefix|] == prefix && r[|prefix|..] == id;
    r
  }

  /** Different containers get different cgroups. */
  lemma ContainerCgroupPathInjective(id1: string, id2: string)
    requires ContainerCgroupPath(id1) == ContainerCgroupPath(id2)
    ensures id1 == id2
  {
  }

  // ----- The memory check -----

  datatype MemoryError = LimitTooLow(memoryLimit: Int64, minMemory: Int64)

  /** VerifyMemoryIsEnough: a limit of 0 means none; otherwise the limit
      must be at least the minimum. */
  function VerifyMemoryIsEnough(memoryLimit: Int64, minMemory: Int64): (r: Option<MemoryError>)
    ensures r.Some? <==> memoryLimit != 0 && memoryLimit < minMemory
    ensures r.Some? ==> r.value == LimitTooLow(memoryLimit, minMemory)
  {
    if memoryLimit != 0 && memoryLimit < minMemory then Some(LimitTooLow(memoryLimit, minMemory)) else None
  }

  /** The text of the error, both numbers written with %d. */
  function MemoryMessage(e: MemoryError): string {
    "set memory limit " + FormatInt(e.memoryLimit) + " too low; should be at least "
      + FormatInt(e.minMemory) + " bytes"
  }

  /** A limit that fits a minimum fits every smaller one too. */
  lemma EnoughForLess(memoryLimit: Int64, minMemory: Int64, smaller: Int64)
    requires VerifyMemoryIsEnough(memoryLimit, minMemory).None? && smaller <= minMemory
    ensures VerifyMemoryIsEnough(memoryLimit, smaller).None?
  {
  }

  // ----- Decimal numbers -----

  /** strconv's error kinds: a character that is not part of a number, or a
      number outside the type. */
  datatype NumError = ErrSyntax | ErrRange

  predicate IsDigit(c: char) {
    '0' <= c <= '9'
  }

  predicate AllDigits(s: string) {
    forall k :: 0 <= k < |s| ==> IsDigit(s[k])
  }

  function DigitValue(c: char): nat
    requires IsDigit(c)
  {
    (c as int) - ('0' as int)
  }

  /** The number that `n` followed by the digits of `s` stands for. */
  function ValueFrom(n: nat, s: string): nat
    requires AllDigits(s)
    decreases |s|
  {
    if s == [] then n else ValueFrom(n * 10 + DigitValue(s[0]), s[1..])
  }

  /** strconv.ParseUint's loop in base 10, from the value `n` read so far:
      characters are taken from the left, and the first one that is not a
      digit, or that would take the value past 64 bits, ends the scan. */
  function ScanDigits(s: string, n: nat): Result<nat, NumError>
    decreases |s|
  {
    if s == [] then Ok(n)
    else if !IsDigit(s[0]) then Err(ErrSyntax)
    else if n >= MaxUint64 / 10 + 1 then Err(ErrRange)
    else
      var n1 := n * 10 + DigitValue(s[0]);
      if n1 > MaxUint64 then Err(ErrRange) else ScanDigits(s[1..], n1)
  }

  /** strconv.ParseUint(s, 10, 64). */
  function ParseUint64(s: string): Result<nat, NumError> {
    if s == "" then Err(ErrSyntax) else ScanDigits(s, 0)
  }

  /** The text after one leading sign, if any. */
  function Unsigned(s: string): string {
    if |s| > 0 && (s[0] == '+' || s[0] == '-') then s[1..] else s
  }

  /** strconv.ParseInt(s, 10, 64): an optional sign, then ParseUint, then the
      range of int64. */
  function ParseInt64(s: string): Result<Int64, NumError> {
    if s == "" then Err(ErrSyntax)
    else
      var neg := s[0] == '-';
      match ParseUint64(Unsigned(s))
      case Err(e) => Err(e)
      case Ok(un) =>
        if !neg && un >= MaxInt64 + 1 then Err(ErrRange)
        else if neg && un > MaxInt64 + 1 then Err(ErrRange)
        else Ok(if neg then -(un as int) else un)
  }

  /** What ParseInt accepts, stated outright: an optional sign, at least one
      digit and nothing else, and a value that fits int64. */
  predicate IsDecimalInt64(s: string) {
    var digits := Unsigned(s);
    && |digits| > 0 && AllDigits(digits)
    && MinInt64 <= SignedValue(s) <= MaxInt64
  }

  function SignedValue(s: string): int
    requires AllDigits(Unsigned(s))
  {
    if |s| > 0 && s[0] == '-' then -(ValueFrom(0, Unsigned(s)) as int) else ValueFrom(0, Unsigned(s))
  }

  function DigitChar(d: nat): (c: char)
    requires d < 10
    ensures IsDigit(c) && DigitValue(c) == d
  {
    (('0' as int) + d) as char
  }

  /** strconv.FormatUint in base 10: no leading zeros. */
  function FormatNat(n: nat): (s: string)
    ensures |s| > 0 && AllDigits(s)
    decreases n
  {
    if n < 10 then [DigitChar(n)] else FormatNat(n / 10) + [DigitChar(n % 10)]
  }

  /** How %d writes an int64. */
  function FormatInt(x: Int64): string {
    if x < 0 then "-" + FormatNat(-(x as int)) else FormatNat(x)
  }

  /** Reading one more digit at the end. */
  lemma {:induction false} ValueFromSnoc(n: nat, s: string, c: char)
    requires AllDigits(s) && IsDigit(c)
    ensures AllDigits(s + [c])
    ensures ValueFrom(n, s + [c]) == ValueFrom(n, s) * 10 + DigitValue(c)
    decreases |s|
  {
    if s != [] {
      assert (s + [c])[1..] == s[1..] + [c];
      ValueFromSnoc(n * 10 + DigitValue(s[0]), s[1..], c);
    }
  }

  /** Digits only ever make the value grow. */
  lemma {:induction false} ValueFromGrows(n: nat, s: string)
    requires AllDigits(s)
    ensures ValueFrom(n, s) >= n
    ensures s != [] ==> ValueFrom(n, s) >= n * 10
    decreases |s|
  {
    if s != [] {
      ValueFromGrows(n * 10 + DigitValue(s[0]), s[1..]);
    }
  }

  /** The scan succeeds exactly on digits whose value fits 64 bits, and then
      yields that value. */
  lemma {:induction false} ScanDigitsValue(s: string, n: nat)
    requires n <= MaxUint64
    ensures ScanDigits(s, n).Ok? <==> AllDigits(s) && ValueFrom(n, s) <= MaxUint64
    ensures ScanDigits(s, n).Ok? ==> ScanDigits(s, n).value == ValueFrom(n, s)
    decreases |s|
  {
    if s != [] && IsDigit(s[0]) {
      var n1 := n * 10 + DigitValue(s[0]);
      if AllDigits(s) {
        ValueFromGrows(n1, s[1..]);
      }
      if n < MaxUint64 / 10 + 1 && n1 <= MaxUint64 {
        ScanDigitsValue(s[1..], n1);
      }
    }
  }

  /** FormatNat writes the number it is given. */
  lemma {:induction false} FormatNatValue(n: nat)
    ensures ValueFrom(0, FormatNat(n)) == n
    decreases n
  {
    if n >= 10 {
      FormatNatValue(n / 10);
      ValueFromSnoc(0, FormatNat(n / 10), DigitChar(n % 10));
    }
  }

  /** ParseInt accepts exactly the decimal int64 numerals, and reads each
      as the number it stands for. */
  lemma ParseInt64Accepts(s: string)
    ensures ParseInt64(s).Ok? <==> IsDecimalInt64(s)
    ensures ParseInt64(s).Ok? ==> ParseInt64(s).value == SignedValue(s)
  {
    var digits := Unsigned(s);
    if s != "" && digits != "" {
      ScanDigitsValue(digits, 0);
    }
  }

  /** What %d writes, ParseInt reads back. */
  lemma ParseFormatRoundTrip(x: Int64)
    ensures ParseInt64(FormatInt(x)) == Ok(x)
  {
    var s := FormatInt(x);
    var magnitude: nat := if x < 0 then -(x as int) else x;
    var digits := FormatNat(magnitude);
    FormatNatValue(magnitude);
    assert IsDigit(digits[0]);
    if x < 0 {
      assert s[0] == '-' && s[1..] == digits;
    }
    assert Unsigned(s) == digits;
    ParseInt64Accepts(s);
  }

  // ----- The memory-limit file -----

  /** strings.TrimRight(s, "\n"): every trailing newline removed. */
  function TrimNewlines(s: string): (r: string)
    ensures |r| <= |s| && r == s[..|r|]
    ensures forall k :: |r| <= k < |s| ==> s[k] == '\n'
    ensures |r| > 0 ==> r[|r| - 1] != '\n'
    decreases |s|
  {
    if |s| > 0 && s[|s| - 1] == '\n' then TrimNewlines(s[..|s| - 1]) else s
  }

  /** Only the newlines after the text are trimmed. */
  lemma {:induction false} TrimNewlinesOf(text: string, tail: string)
    requires text == [] || text[|text| - 1] != '\n'
    requires forall k :: 0 <= k < |tail| ==> tail[k] == '\n'
    ensures TrimNewlines(text + tail) == text
    decreases |tail|
  {
    if tail == [] {
      assert text + tail == text;
    } else {
      var s := text + tail;
      assert s[..|s| - 1] == text + tail[..|tail| - 1];
      TrimNewlinesOf(text, tail[..|tail| - 1]);
    }
  }

  datatype CheckError =
    | ReadError(slicePath: string)                       // "unable to read memory file for cgroups at %s: %w"
    | ConvertError(memory: string, cause: NumError)      // "error converting cgroup memory value from string to int %q: %w"
    | PodError(tooLow: MemoryError)                      // "pod %w"

  /** The memory-limit file as the read leaves it. */
  datatype MemoryFile = Contents(data: string) | NotExist | Unreadable

  /** What verifyCgroupHasEnoughMemory concludes from the file's text: no
      limit ("" or "max"), a number checked against the minimum, or text
      that is not a number. */
  function CheckMemoryText(fileData: string, minMemory: Int64): Option<CheckError> {
    var strMemory := TrimNewlines(fileData);
    if strMemory != "" && strMemory != "max" then
      match ParseInt64(strMemory)
      case Err(e) => Some(ConvertError(strMemory, e))
      case Ok(memoryLimit) =>
        match VerifyMemoryIsEnough(memoryLimit, minMemory)
        case Some(e) => Some(PodError(e))
        case None => None
    else None
  }

  /** verifyCgroupHasEnoughMemory: a missing file passes (with a warning),
      an unreadable one fails, and a read one is judged by its text. */
  function VerifyCgroupHasEnoughMemory(slicePath: string, file: MemoryFile, minMemory: Int64): (r: Option<CheckError>)
    ensures file.NotExist? ==> r.None?
    ensures file.Unreadable? ==> r == Some(ReadError(slicePath))
    ensures file.Contents? ==> r == CheckMemoryText(file.data, minMemory)
  {
    match file
    case NotExist => None
    case Unreadable => Some(ReadError(slicePath))
    case Contents(data) => CheckMemoryText(data, minMemory)
  }

  /** A file holding nothing or "max", with any trailing newlines, sets no
      limit: every minimum passes. */
  lemma UnlimitedFileAccepted(tail: string, minMemory: Int64)
    requires forall k :: 0 <= k < |tail| ==> tail[k] == '\n'
    ensures CheckMemoryText(tail, minMemory) == None
    ensures CheckMemoryText("max" + tail, minMemory) == None
  {
    TrimNewlinesOf("", tail);
    assert "" + tail == tail;
    TrimNewlinesOf("max", tail);
  }

  /** A file whose text, once its trailing newlines are trimmed, is a
      number ParseInt accepts (any sign, leading zeros and all) gets exactly
      the verdict of VerifyMemoryIsEnough on that number, its error wrapped
      for the pod. */
  lemma NumericFileVerdict(fileData: string, minMemory: Int64)
    requires IsDecimalInt64(TrimNewlines(fileData))
    ensures var v := SignedValue(TrimNewlines(fileData));
      CheckMemoryText(fileData, minMemory)
        == if v != 0 && v < minMemory then Some(PodError(LimitTooLow(v, minMemory))) else None
  {
    var strMemory := TrimNewlines(fileData);
    MaxIsNoNumber();
    ParseInt64Accepts(strMemory);
  }

  /** "max" is not a number. */
  lemma MaxIsNoNumber()
    ensures !IsDecimalInt64("max")
  {
    assert Unsigned("max") == "max";
    assert "max"[0] == 'm' && !IsDigit('m');
  }

  /** In particular a limit written with %d, followed by any newlines. */
  lemma FormattedFileVerdict(memoryLimit: Int64, tail: string, minMemory: Int64)
    requires forall k :: 0 <= k < |tail| ==> tail[k] == '\n'
    ensures CheckMemoryText(FormatInt(memoryLimit) + tail, minMemory)
         == if memoryLimit != 0 && memoryLimit < minMemory then Some(PodError(LimitTooLow(memoryLimit, minMemory)))
            else None
  {
    var s := FormatInt(memoryLimit);
    var digits := FormatNat(if memoryLimit < 0 then -(memoryLimit as int) else memoryLimit);
    assert s[|s| - 1] == digits[|digits| - 1];
    assert IsDigit(s[|s| - 1]);
    TrimNewlinesOf(s, tail);
    ParseFormatRoundTrip(memoryLimit);
    ParseInt64Accepts(s);
    NumericFileVerdict(s + tail, minMemory);
  }

  /** Any other text is refused as not a number, naming the trimmed text. */
  lemma NonNumericFileRejected(fileData: string, minMemory: Int64)
    requires var strMemory := TrimNewlines(fileData);
      strMemory != "" && strMemory != "max" && !IsDecimalInt64(strMemory)
    ensures var r := CheckMemoryText(fileData, minMemory);
      r.Some? && r.value.ConvertError? && r.value.memory == TrimNewlines(fileData)
  {
    ParseInt64Accepts(TrimNewlines(fileData));
  }
}
