/** The log server of Log/avic_log.c: where its log file lives, the
    batch of up to 100 messages it keeps before writing, how that batch is
    written, and how the log files are rotated. The file system is a map
    from a file's numeric suffix to its contents: suffix 0 is the base file
    `<dir>/log`, suffix i the file `<dir>/log<i>`. */
module AvicLog {
  import opened Wrappers
  import opened CText

  /** LOG_FOLDER_NAME and LOG_FILE_NAME. */
  const LogFolderName: string := "log/"
  const LogFileName: string := "log"
  /** MAX_LOG_SIZE: a file larger than this is rotated. */
  const MaxLogSize: int := 2 * 1024 * 1024
  /** MAX_LOG_NUM: rotated files log1 to log5 are kept. */
  const MaxLogNum: nat := 5
  /** MAX_BUF_LEN: the size of the path and message buffers. */
  const MaxBufLen: int := 65535
  /** MAX_MESSAGE_NUMBER: the slots of the batch. */
  const MaxMessageNumber: int := 100
  /** ENABLE_WRITE_FLAG: the batch is full and must be written. */
  const EnableWriteFlag: int := 1
  /** MAX_STRING_SIZE: the longest message the batch accepts, NUL included. */
  const MaxStringSize: int := 4096

  // ---------------------------------------------------------------------
  // The log folder

  /** The position of the last '/' among the first `n` characters of `s`. */
  function LastSlash(s: string, n: nat): (r: Option<nat>)
    requires n <= |s|
    ensures r.Some? ==> r.value < n && s[r.value] == '/' && forall j :: r.value < j < n ==> s[j] != '/'
    ensures r.None? ==> forall j :: 0 <= j < n ==> s[j] != '/'
  {
    if n == 0 then None
    else if s[n - 1] == '/' then Some(n - 1)
    else LastSlash(s, n - 1)
  }

  /** The executable's path cut after its last '/' with "log/" appended;
      a path without '/' is kept as it is. */
  function FolderOf(exe: string): string {
    match LastSlash(exe, |exe|)
    case Some(i) => exe[..i + 1] + LogFolderName
    case None => exe
  }

  /** GetLogFolderPath: `exe` is what readlink of /proc/self/exe yields
      (None when it fails). -1 when that fails or is 65534 characters or
      longer, or when the folder path is longer than `maxlen`. */
  function FolderPath(exe: Option<string>, maxlen: int): (int, Option<string>) {
    if exe.None? || |exe.value| >= MaxBufLen - 1 then (-1, None)
    else
      var folder := FolderOf(exe.value);
      if |folder| > maxlen then (-1, None) else (0, Some(folder))
  }

  /** GetLogFolderPath: the backward scan for the last '/', then the cut
      and "log/", then the length check. */
  method GetLogFolderPath(exe: Option<string>, maxlen: int) returns (rc: int, path: Option<string>)
    ensures (rc, path) == FolderPath(exe, maxlen)
  {
    if exe.None? || |exe.value| >= MaxBufLen - 1 {
      return -1, None;
    }
    var buf := exe.value;
    var i := |buf|;
    while i > 0 && buf[i - 1] != '/'
      invariant 0 <= i <= |buf|
      invariant LastSlash(buf, i) == LastSlash(buf, |buf|)
    {
      i := i - 1;
    }
    if i > 0 {
      buf := buf[..i] + LogFolderName;
    }
    var count := |buf|;
    if count > maxlen {
      return -1, None;
    }
    rc, path := 0, Some(buf);
  }

  /** A successful folder path is the directory of the executable, up to
      and including its last '/', followed by "log/", or the path unchanged
      when it contains no '/'; it fails exactly for a failed or over-long
      readlink, or a result longer than `maxlen`. */
  lemma FolderPathIsExeDirectory(exe: Option<string>, maxlen: int)
    ensures FolderPath(exe, maxlen).0 == -1 <==>
      exe.None? || |exe.value| >= MaxBufLen - 1 || |FolderOf(exe.value)| > maxlen
    ensures FolderPath(exe, maxlen).0 == 0 ==>
      var p := FolderPath(exe, maxlen).1.value;
      var s := exe.value;
      |p| <= maxlen &&
      ((exists i :: 0 <= i < |s| && s[i] == '/' && p == s[..i + 1] + LogFolderName &&
                    forall j :: i < j < |s| ==> s[j] != '/') ||
       ((forall j :: 0 <= j < |s| ==> s[j] != '/') && p == s))
  {
    if FolderPath(exe, maxlen).0 == 0 {
      var s := exe.value;
      match LastSlash(s, |s|)
      case Some(i) =>
        assert s[i] == '/' && FolderOf(s) == s[..i + 1] + LogFolderName;
      case None =>
    }
  }

  /** InitLogFile: the folder path, checked with `folderExists` (access) or
      created with `mkdirOk` (mkdir), then "log" appended. */
  function InitLogFile(exe: Option<string>, folderExists: bool, mkdirOk: bool): (r: (int, Option<string>))
    ensures r.0 == 0 <==> FolderPath(exe, MaxBufLen).0 == 0 && (folderExists || mkdirOk)
    ensures r.0 == 0 ==> r.1 == Some(FolderPath(exe, MaxBufLen).1.value + LogFileName)
    ensures r.0 != 0 ==> r.0 == -1 && r.1 == None
  {
    var (rc, folder) := FolderPath(exe, MaxBufLen);
    if rc != 0 then (-1, None)
    else if folderExists || mkdirOk then (0, Some(folder.value + LogFileName))
    else (-1, None)
  }

  /** The log file of an executable at "/opt/app/server" is
      "/opt/app/log/log". */
  lemma LogFileBesideExecutable()
    ensures InitLogFile(Some("/opt/app/server"), true, false) == (0, Some("/opt/app/log/log"))
  {
    var s := "/opt/app/server";
    assert s[8] == '/' && s[9] == 's' && s[10] == 'e' && s[11] == 'r' && s[12] == 'v' && s[13] == 'e' && s[14] == 'r';
    assert LastSlash(s, 15) == LastSlash(s, 9) == Some(8);
    assert s[..9] == "/opt/app/";
    assert FolderOf(s) == "/opt/app/log/";
    assert FolderPath(Some(s), MaxBufLen) == (0, Some("/opt/app/log/"));
    assert "/opt/app/log/" + LogFileName == "/opt/app/log/log";
    assert InitLogFile(Some(s), true, false).0 == 0;
  }

  // ---------------------------------------------------------------------
  // Argument guards

  /** GetSysTimeString: -1 for a NULL buffer, a non-positive size or a time
      zone outside -11..11 hours; otherwise 0, with the clock `now` moved
      by whole hours (the calendar formatting is not modelled). */
  function GetSysTimeString(bufOk: bool, maxLen: int, offTime: int, now: int): (r: (int, int))
    ensures r.0 == -1 <==> !bufOk || maxLen <= 0 || offTime < -11 || offTime > 11
    ensures r.0 != -1 ==> r.0 == 0 && -11 * 3600 <= r.1 - now <= 11 * 3600 && (r.1 - now) % 3600 == 0
  {
    if !bufOk || maxLen <= 0 || offTime < -11 || offTime > 11 then (-1, now)
    else (0, now + offTime * 3600)
  }

  /** What LogSafeSprintf returns and leaves in the buffer (None when it
      does not touch it). */
  datatype Formatted = Formatted(ret: int, contents: Option<string>)

  /** LogSafeSprintf as written. `text` is what the format and arguments
      produce, None when vsnprintf fails. */
  function LogSafeSprintf(bufOk: bool, maxLen: int, text: Option<string>): (r: Formatted)
    ensures !bufOk || maxLen <= 0 ==> r == Formatted(0, None)
    ensures bufOk && maxLen > 0 && text.None? ==> r == Formatted(0, Some(""))
    ensures bufOk && maxLen > 0 && text.Some? ==>
      r.ret == |text.value| && r.contents.Some? &&
      |r.contents.value| < maxLen && |r.contents.value| <= |text.value| &&
      r.contents.value == text.value[..|r.contents.value|] &&
      (|text.value| < maxLen ==> r.contents.value == text.value)
  {
    if !bufOk || maxLen <= 0 then Formatted(0, None)
    else if text.None? then Formatted(0, Some(""))
    else Formatted(|text.value|, Some(Truncate(text.value, maxLen - 1)))
  }

  /** As written, a text that does not fit is reported with its full
      length, so the caller's `log_write_buf[ret] = '\0'` writes past the
      end of its 65535-byte buffer. */
  lemma UntruncatedLengthOverruns(text: string)
    requires |text| >= MaxBufLen
    ensures LogSafeSprintf(true, MaxBufLen, Some(text)).ret >= MaxBufLen
    ensures LogSafeSprintf(true, MaxBufLen, Some(text)).ret != |LogSafeSprintf(true, MaxBufLen, Some(text)).contents.value|
  {
  }

  /** LogSafeSprintf as intended: the length of what the buffer holds. */
  function LogSafeSprintfClamped(bufOk: bool, maxLen: int, text: Option<string>): (r: Formatted)
    ensures r.contents == LogSafeSprintf(bufOk, maxLen, text).contents
  {
    var f := LogSafeSprintf(bufOk, maxLen, text);
    if f.contents.Some? then Formatted(|f.contents.value|, f.contents) else f
  }

  /** The clamped result is always a valid index into the buffer, and it
      is the length of the string the buffer holds. */
  lemma ClampedLengthFits(bufOk: bool, maxLen: int, text: Option<string>)
    ensures var r := LogSafeSprintfClamped(bufOk, maxLen, text);
      0 <= r.ret && (maxLen > 0 ==> r.ret < maxLen) &&
      (r.contents.Some? ==> r.ret == |r.contents.value|)
  {
  }

  // ---------------------------------------------------------------------
  // Rotation

  /** The contents of the file with suffix `k`; a missing file reads as empty. */
  function Get(f: map<nat, string>, k: nat): string {
    if k in f then f[k] else ""
  }

  /** The suffixes a rotation can touch or keep. */
  function Suffixes(f: map<nat, string>): set<nat> {
    f.Keys + {0, 1, 2, 3, 4, 5}
  }

  /** Whether suffix `k` exists once the rotation loop has handled
      suffixes 5 down to `j + 1`, and what it then holds: suffix `j + 1` is
      gone, `j + 2` to 5 hold what `j + 1` to 4 held, everything else is as
      it was. */
  predicate InPartial(f: map<nat, string>, j: nat, k: nat) {
    if j + 1 <= k <= MaxLogNum then j + 2 <= k && k - 1 in f else k in f
  }

  function PartialAt(f: map<nat, string>, j: nat, k: nat): string
    requires InPartial(f, j, k)
  {
    if j + 2 <= k <= MaxLogNum then f[k - 1] else f[k]
  }

  ghost function Partial(f: map<nat, string>, j: nat): map<nat, string> {
    map k | k in Suffixes(f) && InPartial(f, j, k) :: PartialAt(f, j, k)
  }

  /** Whether suffix `k` exists after a rotation, and what it holds: a
      fresh empty base file, log1 to log5 holding what the base file and
      log1 to log4 held, the old log5 gone, other suffixes untouched. */
  predicate InRotated(f: map<nat, string>, k: nat) {
    k == 0 || (1 <= k <= MaxLogNum && k - 1 in f) || (k > MaxLogNum && k in f)
  }

  function RotatedAt(f: map<nat, string>, k: nat): string
    requires InRotated(f, k)
  {
    if k == 0 then "" else if k <= MaxLogNum then f[k - 1] else f[k]
  }

  ghost function Rotated(f: map<nat, string>): map<nat, string> {
    map k | k in Suffixes(f) && InRotated(f, k) :: RotatedAt(f, k)
  }

  /** LogFileRename's effect for a file of `fileSize` bytes. */
  ghost function RenameIfFull(f: map<nat, string>, fileSize: int): map<nat, string> {
    if fileSize > MaxLogSize then Rotated(f) else f
  }

  lemma PartialStart(f: map<nat, string>)
    ensures Partial(f, MaxLogNum) == f
  {
  }

  lemma PartialStep(f: map<nat, string>, g: map<nat, string>, i: nat)
    requires 1 <= i <= MaxLogNum && g == Partial(f, i)
    ensures (i in g <==> i in f) && (i in g ==> g[i] == f[i])
    ensures i !in g ==> g == Partial(f, i - 1)
    ensures i in g && i == MaxLogNum ==> g - {i} == Partial(f, i - 1)
    ensures i in g && i < MaxLogNum ==> (g - {i})[i + 1 := g[i]] == Partial(f, i - 1)
  {
  }

  lemma PartialEnd(f: map<nat, string>, g: map<nat, string>)
    requires g == Partial(f, 0)
    ensures 0 in g <==> 0 in f
    ensures 0 in g ==> ((g - {0})[1 := g[0]])[0 := ""] == Rotated(f)
    ensures 0 !in g ==> g[0 := ""] == Rotated(f)
  {
  }

  /** LogFileRename: nothing below the size limit; otherwise, from suffix 5
      down to 1, log5 is removed and every other log<i> renamed to
      log<i+1>, then the base file becomes log1 and is reopened empty. */
  method LogFileRename(files: map<nat, string>, fileSize: int) returns (out: map<nat, string>)
    ensures out == RenameIfFull(files, fileSize)
  {
    out := files;
    if fileSize > MaxLogSize {
      PartialStart(files);
      var i := MaxLogNum;
      while i > 0
        invariant 0 <= i <= MaxLogNum && out == Partial(files, i)
      {
        PartialStep(files, out, i);
        if i in out {
          if i == MaxLogNum {
            out := out - {i};
          } else {
            out := (out - {i})[i + 1 := out[i]];
          }
        }
        i := i - 1;
      }
      PartialEnd(files, out);
      if 0 in out {
        out := (out - {0})[1 := out[0]];
      }
      out := out[0 := ""];
    }
  }

  /** Everything logged, oldest first: log5, log4, ..., log1, then the
      base file. */
  function History(f: map<nat, string>): string {
    HistoryUpTo(f, MaxLogNum)
  }

  function HistoryUpTo(f: map<nat, string>, k: nat): string
    decreases k
  {
    if k == 0 then Get(f, 0) else Get(f, k) + HistoryUpTo(f, k - 1)
  }

  lemma {:induction false} RotatedHistoryUpTo(f: map<nat, string>, k: nat)
    requires 1 <= k <= MaxLogNum
    ensures HistoryUpTo(Rotated(f), k) == HistoryUpTo(f, k - 1)
    decreases k
  {
    var r := Rotated(f);
    assert Get(r, k) == Get(f, k - 1);
    if k == 1 {
      assert Get(r, 0) == "";
    } else {
      RotatedHistoryUpTo(f, k - 1);
    }
  }

  /** Rotation keeps every file but log5, each one suffix further on, and
      so keeps the history in order minus its oldest file. */
  lemma RotationDropsOnlyOldest(f: map<nat, string>)
    ensures Get(Rotated(f), 0) == ""
    ensures forall k: nat :: 1 <= k <= MaxLogNum ==> Get(Rotated(f), k) == Get(f, k - 1)
    ensures History(f) == Get(f, MaxLogNum) + History(Rotated(f))
  {
    RotatedHistoryUpTo(f, MaxLogNum);
  }

  /** Appending `t` to the base file. */
  function AppendBase(f: map<nat, string>, t: string): map<nat, string> {
    f[0 := Get(f, 0) + t]
  }

  lemma {:induction false} AppendHistoryUpTo(f: map<nat, string>, t: string, k: nat)
    ensures HistoryUpTo(AppendBase(f, t), k) == HistoryUpTo(f, k) + t
    decreases k
  {
    if k > 0 {
      AppendHistoryUpTo(f, t, k - 1);
      assert Get(AppendBase(f, t), k) == Get(f, k);
    }
  }

  /** One message written by the flush: the text appended to the base
      file, then the size check and rotation. */
  ghost function WriteOne(f: map<nat, string>, t: string): map<nat, string> {
    var g := AppendBase(f, t);
    RenameIfFull(g, |Get(g, 0)|)
  }

  /** Writing one text keeps order, loses at most the oldest file, and
      leaves the base file within the size limit. */
  lemma WriteOneKeepsOrder(f: map<nat, string>, t: string)
    ensures exists lost :: History(f) + t == lost + History(WriteOne(f, t))
    ensures |Get(WriteOne(f, t), 0)| <= MaxLogSize
  {
    var g := AppendBase(f, t);
    AppendHistoryUpTo(f, t, MaxLogNum);
    if |Get(g, 0)| > MaxLogSize {
      RotationDropsOnlyOldest(g);
      assert History(f) + t == Get(g, MaxLogNum) + History(WriteOne(f, t));
    } else {
      assert History(f) + t == "" + History(WriteOne(f, t));
    }
  }

  /** The flush: each message and a newline written in turn. */
  ghost function WriteAll(f: map<nat, string>, texts: seq<string>): map<nat, string>
    decreases |texts|
  {
    if texts == [] then f
    else WriteAll(WriteOne(f, texts[0] + "\n"), texts[1..])
  }

  /** Writing the text at position `i` is the first step of writing the
      texts from `i` on. */
  lemma WriteAllStep(f: map<nat, string>, texts: seq<string>, i: nat)
    requires i < |texts|
    ensures WriteAll(WriteOne(f, texts[i] + "\n"), texts[i + 1..]) == WriteAll(f, texts[i..])
  {
    assert texts[i..][0] == texts[i] && texts[i..][1..] == texts[i + 1..];
  }

  /** The messages and their newlines, in order. */
  function Lines(texts: seq<string>): string
    decreases |texts|
  {
    if texts == [] then "" else texts[0] + "\n" + Lines(texts[1..])
  }

  /** Losing a prefix of the old history in each of two steps loses a prefix
      overall. */
  lemma ChainOrder(a: string, t: string, b: string, rest: string, w: string)
    requires exists q :: a + t == q + b
    requires exists lost :: b + rest == lost + w
    ensures exists lost :: a + (t + rest) == lost + w
  {
    var q :| a + t == q + b;
    var lost :| b + rest == lost + w;
    calc {
      a + (t + rest);
      (a + t) + rest;
      (q + b) + rest;
      q + (b + rest);
      q + (lost + w);
      (q + lost) + w;
    }
  }

  /** Flushing keeps order: what the files hold afterwards, oldest first,
      is the end of what they held before followed by the new lines; only
      the oldest part can be lost to rotation. The base file ends within
      the size limit. */
  lemma {:induction false} FlushKeepsOrder(f: map<nat, string>, texts: seq<string>)
    ensures exists lost :: History(f) + Lines(texts) == lost + History(WriteAll(f, texts))
    ensures texts != [] ==> |Get(WriteAll(f, texts), 0)| <= MaxLogSize
    decreases |texts|
  {
    if texts == [] {
      assert History(f) + Lines(texts) == "" + History(WriteAll(f, texts));
    } else {
      var t := texts[0] + "\n";
      var h := WriteOne(f, t);
      WriteOneKeepsOrder(f, t);
      FlushKeepsOrder(h, texts[1..]);
      assert WriteAll(f, texts) == WriteAll(h, texts[1..]);
      assert Lines(texts) == t + Lines(texts[1..]);
      ChainOrder(History(f), t, History(h), Lines(texts[1..]), History(WriteAll(h, texts[1..])));
    }
  }

  // ---------------------------------------------------------------------
  // The batch

  /** MessageData: a copy of the message and the size it was given with. */
  datatype Message = Message(mes: string, len: int)

  /** MessageNumberData: the write flag, the next slot, and the slots
      (None for a NULL `mes`). */
  datatype Batch = Batch(writeFlag: int, index: int, slots: seq<Option<Message>>)

  /** The shape the batch keeps: slots below `index` filled and the rest
      empty while collecting; all 100 filled, `index` 0, once the flag is
      set. */
  predicate BatchOk(b: Batch) {
    |b.slots| == MaxMessageNumber && 0 <= b.index <= MaxMessageNumber &&
    (b.writeFlag == EnableWriteFlag ==> b.index == 0 && forall k :: 0 <= k < MaxMessageNumber ==> b.slots[k].Some?) &&
    (b.writeFlag != EnableWriteFlag ==> forall k :: 0 <= k < MaxMessageNumber ==> (b.slots[k].Some? <==> k < b.index))
  }

  /** The zero-initialised static batch. */
  function EmptyBatch(): (b: Batch)
    ensures BatchOk(b)
  {
    Batch(0, 0, seq(MaxMessageNumber, _ => None))
  }

  /** The messages waiting to be written, in slot order. */
  function Pending(b: Batch): (ms: seq<Message>)
    requires BatchOk(b)
    ensures |ms| == if b.writeFlag == EnableWriteFlag then MaxMessageNumber else b.index
  {
    var n := if b.writeFlag == EnableWriteFlag then MaxMessageNumber else b.index;
    seq(n, k requires 0 <= k < n => b.slots[k].value)
  }

  /** LogBuffer as written: once all 100 slots are used, the next message
      only sets the flag and is not stored. */
  function LogBufferSpec(b: Batch, buf: Option<string>, size: int): (r: (Batch, int))
    requires BatchOk(b)
    ensures BatchOk(r.0)
  {
    if buf.None? || size > MaxStringSize || b.writeFlag == EnableWriteFlag then (b, -1)
    else if b.index >= MaxMessageNumber then (Batch(EnableWriteFlag, 0, b.slots), 0)
    else (Batch(b.writeFlag, b.index + 1, b.slots[b.index := Some(Message(buf.value, size))]), 0)
  }

  /** A call is refused (-1, nothing changed) exactly for a NULL message,
      one over 4096 bytes, or a batch waiting to be written; otherwise it
      succeeds. */
  lemma LogBufferRefuses(b: Batch, buf: Option<string>, size: int)
    requires BatchOk(b)
    ensures var r := LogBufferSpec(b, buf, size);
      (r.1 == -1 <==> buf.None? || size > MaxStringSize || b.writeFlag == EnableWriteFlag) &&
      (r.1 == -1 ==> r.0 == b) && (r.1 != -1 ==> r.1 == 0)
  {
  }

  /** Below 100 messages, an accepted message is appended to the pending
      ones. */
  lemma LogBufferAppends(b: Batch, buf: Option<string>, size: int)
    requires BatchOk(b) && b.index < MaxMessageNumber
    requires buf.Some? && size <= MaxStringSize && b.writeFlag != EnableWriteFlag
    ensures var b' := LogBufferSpec(b, buf, size).0;
      Pending(b') == Pending(b) + [Message(buf.value, size)] && b'.writeFlag == b.writeFlag
  {
    var b' := LogBufferSpec(b, buf, size).0;
    assert Pending(b') == Pending(b) + [Message(buf.value, size)];
  }

  /** As written, the message after the 100th is answered with success
      but stored nowhere: the pending messages are the same 100. */
  lemma HundredFirstMessageLost(b: Batch, buf: Option<string>, size: int)
    requires BatchOk(b) && b.index == MaxMessageNumber
    requires buf.Some? && size <= MaxStringSize && b.writeFlag != EnableWriteFlag
    ensures var r := LogBufferSpec(b, buf, size);
      r.1 == 0 && r.0.writeFlag == EnableWriteFlag && Pending(r.0) == Pending(b)
  {
    var b' := LogBufferSpec(b, buf, size).0;
    assert Pending(b') == Pending(b);
  }

  /** The message LogBuffer stores for a string: the copy and its size with
      the NUL, as the server passes it. */
  function AsMessage(m: string): Message {
    Message(m, |m| + 1)
  }

  /** Messages short enough for the batch. */
  predicate Storable(ms: seq<string>) {
    forall k :: 0 <= k < |ms| ==> |ms[k]| + 1 <= MaxStringSize
  }

  /** The batch as-written LogBuffer builds from a run of messages. */
  function Feed(ms: seq<string>): (b: Batch)
    ensures BatchOk(b)
    decreases |ms|
  {
    if ms == [] then EmptyBatch()
    else LogBufferSpec(Feed(ms[..|ms| - 1]), Some(ms[|ms| - 1]), |ms[|ms| - 1]| + 1).0
  }

  /** Up to 100 messages are all pending, in order. */
  lemma {:induction false} FeedCollects(ms: seq<string>)
    requires |ms| <= MaxMessageNumber && Storable(ms)
    ensures Feed(ms).writeFlag == 0 && Feed(ms).index == |ms|
    ensures Pending(Feed(ms)) == seq(|ms|, k requires 0 <= k < |ms| => AsMessage(ms[k]))
    decreases |ms|
  {
    if ms != [] {
      var init := ms[..|ms| - 1];
      var last := ms[|ms| - 1];
      FeedCollects(init);
      LogBufferAppends(Feed(init), Some(last), |last| + 1);
    }
  }

  /** As written, of 101 messages sent in a row the last one never reaches
      the batch: the full batch holds the first 100. */
  lemma HundredFirstLostInRun(ms: seq<string>)
    requires |ms| == MaxMessageNumber + 1 && Storable(ms)
    ensures Feed(ms).writeFlag == EnableWriteFlag
    ensures Pending(Feed(ms)) == seq(MaxMessageNumber, k requires 0 <= k < MaxMessageNumber => AsMessage(ms[k]))
  {
    var init := ms[..MaxMessageNumber];
    FeedCollects(init);
    HundredFirstMessageLost(Feed(init), Some(ms[MaxMessageNumber]), |ms[MaxMessageNumber]| + 1);
  }

  /** LogBuffer as intended: the message that fills the last slot also
      sets the flag, so every message answered with success is stored. */
  function LogBufferFixedSpec(b: Batch, buf: Option<string>, size: int): (r: (Batch, int))
    requires BatchOk(b)
    ensures BatchOk(r.0)
  {
    if buf.None? || size > MaxStringSize || b.writeFlag == EnableWriteFlag then (b, -1)
    else if b.index >= MaxMessageNumber then (Batch(EnableWriteFlag, 0, b.slots), 0)
    else
      var slots := b.slots[b.index := Some(Message(buf.value, size))];
      if b.index + 1 == MaxMessageNumber then (Batch(EnableWriteFlag, 0, slots), 0)
      else (Batch(b.writeFlag, b.index + 1, slots), 0)
  }

  /** The shape the intended batch keeps: while collecting, a slot is
      always free. */
  predicate FixedOk(b: Batch) {
    BatchOk(b) && (b.writeFlag != EnableWriteFlag ==> b.index < MaxMessageNumber)
  }

  /** With the fix, every accepted message is appended to the pending
      ones, and the batch is flagged exactly when it reaches 100. */
  lemma FixedNeverLoses(b: Batch, buf: Option<string>, size: int)
    requires FixedOk(b)
    ensures var r := LogBufferFixedSpec(b, buf, size);
      FixedOk(r.0) &&
      (r.1 == -1 <==> buf.None? || size > MaxStringSize || b.writeFlag == EnableWriteFlag) &&
      (r.1 == -1 ==> r.0 == b) &&
      (r.1 == 0 ==> Pending(r.0) == Pending(b) + [Message(buf.value, size)] &&
                    (r.0.writeFlag == EnableWriteFlag <==> |Pending(r.0)| == MaxMessageNumber))
  {
    var r := LogBufferFixedSpec(b, buf, size);
    if r.1 == 0 {
      assert Pending(r.0) == Pending(b) + [Message(buf.value, size)];
    }
  }

  /** The texts of the pending messages. */
  function Texts(ms: seq<Message>): (ts: seq<string>)
    ensures |ts| == |ms| && forall k :: 0 <= k < |ms| ==> ts[k] == ms[k].mes
  {
    seq(|ms|, k requires 0 <= k < |ms| => ms[k].mes)
  }

  /** A full batch: every slot holds a message, and the texts to write are
      their `mes` in slot order. */
  lemma FullPending(b: Batch)
    requires BatchOk(b) && b.writeFlag == EnableWriteFlag
    ensures |Texts(Pending(b))| == MaxMessageNumber
    ensures forall k :: 0 <= k < MaxMessageNumber ==>
      b.slots[k].Some? && Texts(Pending(b))[k] == b.slots[k].value.mes
  {
  }

  /** The slots once the flush has freed those below `i`. */
  function Freed(before: seq<Option<Message>>, i: int): (r: seq<Option<Message>>)
    ensures |r| == |before|
  {
    seq(|before|, k requires 0 <= k < |before| => if k < i then None else before[k])
  }

  lemma FreedStep(before: seq<Option<Message>>, i: nat)
    requires i < |before|
    ensures Freed(before, i)[i := None] == Freed(before, i + 1)
    ensures Freed(before, i)[i] == before[i]
  {
  }

  lemma FreedAll(before: seq<Option<Message>>)
    requires |before| == MaxMessageNumber
    ensures Freed(before, MaxMessageNumber) == EmptyBatch().slots
  {
  }

  /** One step of the flush: the text is appended to the base file, then
      the size of the base file decides the rotation. */
  method WriteMessage(files: map<nat, string>, text: string) returns (out: map<nat, string>)
    ensures out == WriteOne(files, text)
  {
    out := AppendBase(files, text);
    var fileSize := |Get(out, 0)|;
    out := LogFileRename(out, fileSize);
  }

  /** The static `mes_num_data`. */
  class MessageBuffer {
    var writeFlag: int
    var index: int
    const slots: array<Option<Message>>

    function State(): Batch
      reads this, slots
    {
      Batch(writeFlag, index, slots[..])
    }

    ghost predicate Valid()
      reads this, slots
    {
      BatchOk(State())
    }

    /** Zero-initialised: flag 0, index 0, every `mes` NULL. */
    constructor()
      ensures Valid() && State() == EmptyBatch() && fresh(slots)
    {
      writeFlag, index := 0, 0;
      slots := new Option<Message>[MaxMessageNumber](_ => None);
      new;
      assert slots[..] == EmptyBatch().slots;
    }

    /** LogBuffer. */
    method LogBuffer(buf: Option<string>, size: int) returns (rc: int)
      requires Valid()
      modifies this, slots
      ensures Valid() && (State(), rc) == LogBufferSpec(old(State()), buf, size)
    {
      if buf.None? || size > MaxStringSize || writeFlag == EnableWriteFlag {
        return -1;
      }
      var i := index;
      if i >= MaxMessageNumber {
        index := 0;
        writeFlag := EnableWriteFlag;
        return 0;
      }
      slots[i] := Some(Message(buf.value, size));
      index := index + 1;
      rc := 0;
    }

    /** LogBuffer with the fix: the flag is set by the call that fills the
        last slot. */
    method LogBufferFixed(buf: Option<string>, size: int) returns (rc: int)
      requires Valid()
      modifies this, slots
      ensures Valid() && (State(), rc) == LogBufferFixedSpec(old(State()), buf, size)
    {
      if buf.None? || size > MaxStringSize || writeFlag == EnableWriteFlag {
        return -1;
      }
      var i := index;
      if i >= MaxMessageNumber {
        index := 0;
        writeFlag := EnableWriteFlag;
        return 0;
      }
      slots[i] := Some(Message(buf.value, size));
      index := index + 1;
      if index == MaxMessageNumber {
        index := 0;
        writeFlag := EnableWriteFlag;
      }
      rc := 0;
    }

    /** The flush in the server loop: slots 0 to 99 are written to the base
        file in order, each followed by a newline, freed, and followed by
        the size check and rotation; then the flag is cleared. */
    method Flush(files: map<nat, string>) returns (out: map<nat, string>)
      requires Valid() && writeFlag == EnableWriteFlag
      modifies this, slots
      ensures Valid() && State() == EmptyBatch()
      ensures out == WriteAll(files, Texts(old(Pending(State()))))
    {
      ghost var texts := Texts(Pending(State()));
      ghost var before := slots[..];
      FullPending(State());
      out := files;
      var i := 0;
      while i < MaxMessageNumber
        invariant 0 <= i <= MaxMessageNumber
        invariant writeFlag == EnableWriteFlag && index == 0
        invariant slots[..] == Freed(before, i)
        invariant WriteAll(out, texts[i..]) == WriteAll(files, texts)
      {
        assert slots[i] == slots[..][i];
        var m := slots[i].value;
        WriteAllStep(out, texts, i);
        out := WriteMessage(out, m.mes + "\n");
        slots[i] := None;
        FreedStep(before, i);
        i := i + 1;
      }
      FreedAll(before);
      writeFlag := 0;
    }
  }
}
