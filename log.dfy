/** The filtering and formatting logic of Log/log.c. The filter record
    `log_ft` and the socket descriptor `s_fd` that Log keeps in a static
    variable are the fields of one object; what Log prints and sends is
    returned as an Outcome instead of being written out. */
module Logger {
  import opened Wrappers
  import opened CText

  /** MAX_COM_BUF_LEN: the size of every formatting buffer. */
  const MaxComBufLen: int := 65535
  /** MAX_FILTER_NAME_LEN: the longest keyword or tag kept. */
  const MaxFilterNameLen: nat := 15
  /** LEVEL_MAX: levels VERBOSE (0) to ASSERT (5) exist. */
  const LevelMax: nat := 6
  const Warning: nat := 3
  /** The output flags. */
  const Quit: int := 0
  const OnlyRead: int := 1
  const OnlyWrite: int := 2
  const ReadWrite: int := 3
  /** size_t is 64 bits wide. */
  const SizeTModulus: int := 0x1_0000_0000_0000_0000
  const IntMin: int := -0x8000_0000
  const IntMax: int := 0x7fff_ffff

  /** The letter of a level in the line header. */
  function LevelLetter(level: nat): char
    requires level < LevelMax
  {
    "VDIWEA"[level]
  }

  /** The ANSI colour of a level on the console (bold, then blue, green,
      cyan, yellow, red, magenta). */
  function LevelColor(level: nat): string
    requires level < LevelMax
  {
    ["1;34m", "1;32m", "1;36m", "1;33m", "1;31m", "1;35m"][level]
  }

  /** `log_ft.level = level`: the int is stored in a size_t, so a negative
      level wraps to a huge one. */
  function StoredLevel(level: int): (r: int)
    requires IntMin <= level <= IntMax
    ensures 0 <= r < SizeTModulus && (r - level) % SizeTModulus == 0
  {
    if level < 0 then SizeTModulus + level else level
  }

  /** The level LogInit evidently intends to store: negative ones become 0. */
  function ClampedLevel(level: int): (r: nat)
    ensures level >= 0 ==> r == level
    ensures level < 0 ==> r == 0
  {
    if level < 0 then 0 else level
  }

  /** strncpy into the 16-byte keyword or tag field, then a NUL at index 15. */
  function FilterName(s: string): (r: string)
    ensures |r| <= MaxFilterNameLen && |r| <= |s| && r == s[..|r|]
    ensures |s| <= MaxFilterNameLen ==> r == s
  {
    Truncate(s, MaxFilterNameLen)
  }

  /** The filter settings of log_ft. `level` is the size_t value. */
  datatype Filter = Filter(level: int, keyword: string, tag: string)

  /** One call of Log. `message` is what the caller's format and arguments
      produce, and `pid` and `tid` are what getpid and gettid return. */
  datatype Request = Request(
    file: string, func: string, line: int, level: nat,
    logId: string, flag: int, message: string, pid: int, tid: int)

  /** What a Log call does: nothing, or a formatted line that goes to the
      console (as `console`) and to the UDP port (as `datagram`, with its
      NUL) when the flag says so. */
  datatype Outcome =
    | Dropped
    | Emitted(line: string, console: Option<string>, datagram: Option<string>)

  /** The header of a line, before the log id and the message. */
  function LinePrefix(r: Request): string
    requires r.level < LevelMax
  {
    "[" + [LevelLetter(r.level)] + "][PID:" + Decimal(r.pid) + " TID:" + Decimal(r.tid) +
    "][" + r.file + " " + r.func + "][LINE:" + Decimal(r.line) + "]" + r.logId + "->:"
  }

  /** The line snprintf builds: header, log id and the message (itself cut
      at 65534 characters by vsnprintf), cut again at 65534 characters. */
  function FormatLine(r: Request): (line: string)
    requires r.level < LevelMax
    ensures |line| < MaxComBufLen
    ensures |LinePrefix(r)| + |r.message| < MaxComBufLen ==> line == LinePrefix(r) + r.message
    ensures |line| >= 3 && line[0] == '[' && line[1] == LevelLetter(r.level) && line[2] == ']'
  {
    var full := LinePrefix(r) + Truncate(r.message, MaxComBufLen - 1);
    assert full[0] == '[' && full[1] == LevelLetter(r.level) && full[2] == ']';
    Truncate(full, MaxComBufLen - 1)
  }

  /** PRINTF_COLOR: colour escape, line, reset escape, newline. */
  function ConsoleText(level: nat, line: string): string
    requires level < LevelMax
  {
    "\U{1b}[" + LevelColor(level) + line + "\U{1b}[0m\n"
  }

  /** The outputs of a formatted line for a flag that passed the filter. */
  function Route(level: nat, flag: int, line: string): Outcome
    requires level < LevelMax
  {
    if flag > Quit then
      Emitted(line,
              if flag != OnlyWrite then Some(ConsoleText(level, line)) else None,
              if flag > OnlyRead then Some(line + "\0") else None)
    else
      Emitted(line, None, None)
  }

  /** Log: the outcome of a request and the new socket descriptor, given
      the filter, the current descriptor `fd`, and `sock`, the descriptor
      socket() returns if one has to be created. */
  function Decide(f: Filter, fd: int, sock: int, r: Request): (Outcome, int) {
    if r.level < f.level || ReadWrite < r.flag then (Dropped, fd)
    else if f.tag != "" && r.logId != f.tag then (Dropped, fd)
    else if fd <= 0 && sock < 0 then (Dropped, -1)
    else
      var fd' := if fd <= 0 then sock else fd;
      if r.level >= LevelMax then (Dropped, fd')
      else
        var line := FormatLine(r);
        if f.keyword != "" && !Contains(line, f.keyword) then (Dropped, fd')
        else (Route(r.level, r.flag, line), fd')
  }

  /** A request gets through exactly when it passes every filter: level,
      flag, tag, socket, known level and keyword. */
  predicate Admitted(f: Filter, fd: int, sock: int, r: Request) {
    f.level <= r.level < LevelMax && r.flag <= ReadWrite &&
    (f.tag == "" || r.logId == f.tag) &&
    (fd > 0 || sock >= 0) &&
    (f.keyword == "" || Contains(FormatLine(r), f.keyword))
  }

  /** The static state Log works on. */
  class Logger {
    var level: int
    var keyword: string
    var tag: string
    /** s_fd. */
    var fd: int

    function Settings(): Filter
      reads this
    {
      Filter(level, keyword, tag)
    }

    /** The zero-initialised log_ft and `s_fd = -1`. */
    constructor()
      ensures Settings() == Filter(0, "", "") && fd == -1
    {
      level, keyword, tag, fd := 0, "", "", -1;
    }

    /** LogInit as written. The level is stored in a size_t, so the clamp
        of negative levels compares an unsigned value with 0, never fires
        and has no counterpart here. A keyword is set when given, and
        then the tag is ignored; the tag is set only when there is no
        keyword. NULL is None. */
    method LogInit(newLevel: int, newKeyword: Option<string>, newTag: Option<string>)
      requires IntMin <= newLevel <= IntMax
      modifies this
      ensures level == StoredLevel(newLevel) && fd == old(fd)
      ensures newKeyword.Some? ==> keyword == FilterName(newKeyword.value) && tag == old(tag)
      ensures newKeyword.None? && newTag.Some? ==> tag == FilterName(newTag.value) && keyword == old(keyword)
      ensures newKeyword.None? && newTag.None? ==> keyword == old(keyword) && tag == old(tag)
    {
      level := StoredLevel(newLevel);
      if newKeyword.Some? {
        keyword := FilterName(newKeyword.value);
      } else if newTag.Some? {
        tag := FilterName(newTag.value);
      }
    }

    /** LogInit with the clamp working: a negative level means "log
        everything". */
    method LogInitClamped(newLevel: int, newKeyword: Option<string>, newTag: Option<string>)
      modifies this
      ensures level == ClampedLevel(newLevel) && fd == old(fd)
      ensures newKeyword.Some? ==> keyword == FilterName(newKeyword.value) && tag == old(tag)
      ensures newKeyword.None? && newTag.Some? ==> tag == FilterName(newTag.value) && keyword == old(keyword)
      ensures newKeyword.None? && newTag.None? ==> keyword == old(keyword) && tag == old(tag)
    {
      level := newLevel;
      if level < 0 {
        level := 0;
      }
      if newKeyword.Some? {
        keyword := FilterName(newKeyword.value);
      } else if newTag.Some? {
        tag := FilterName(newTag.value);
      }
    }

    /** Log: the filters in the order the C applies them, creating the
        socket on first use (`sock` is what socket() returns). */
    method Log(r: Request, sock: int) returns (out: Outcome)
      modifies this
      ensures (out, fd) == Decide(old(Settings()), old(fd), sock, r)
      ensures Settings() == old(Settings())
    {
      out := Dropped;
      if r.level < level || ReadWrite < r.flag {
        return;
      }
      if tag != "" && r.logId != tag {
        return;
      }
      if fd <= 0 {
        if sock < 0 {
          fd := -1;
          return;
        }
        fd := sock;
      }
      if r.level >= LevelMax {
        return;
      }
      var line := FormatLine(r);
      if keyword != "" && !Contains(line, keyword) {
        return;
      }
      out := Route(r.level, r.flag, line);
    }
  }

  /** A line is emitted exactly when the request is admitted, and then it
      carries the level letter, fits the buffer and contains the keyword. */
  lemma EmittedIffAdmitted(f: Filter, fd: int, sock: int, r: Request)
    ensures Decide(f, fd, sock, r).0.Emitted? <==> Admitted(f, fd, sock, r)
    ensures Decide(f, fd, sock, r).0.Emitted? ==>
      var line := Decide(f, fd, sock, r).0.line;
      line == FormatLine(r) && |line| < MaxComBufLen && line[1] == LevelLetter(r.level) &&
      Contains(line, f.keyword)
  {
    if Decide(f, fd, sock, r).0.Emitted? && f.keyword == "" {
      assert OccursAt(FormatLine(r), "", 0);
    }
  }

  /** The flag decides where an emitted line goes: the console for
      ONLY_READ and READ_WRITE, the UDP port for ONLY_WRITE and READ_WRITE,
      nowhere for QUIT and below. */
  lemma RoutingByFlag(f: Filter, fd: int, sock: int, r: Request)
    requires Decide(f, fd, sock, r).0.Emitted?
    ensures var o := Decide(f, fd, sock, r).0;
      (o.console.Some? <==> r.flag == OnlyRead || r.flag == ReadWrite) &&
      (o.datagram.Some? <==> r.flag == OnlyWrite || r.flag == ReadWrite) &&
      (o.console.Some? ==> o.console.value == ConsoleText(r.level, o.line)) &&
      (o.datagram.Some? ==> o.datagram.value[..|o.line|] == o.line && |o.datagram.value| == |o.line| + 1)
  {
  }

  /** Raising the configured level never lets more through. */
  lemma RaisingLevelAdmitsLess(f: Filter, g: Filter, fd: int, sock: int, r: Request)
    requires f.level <= g.level && f.keyword == g.keyword && f.tag == g.tag
    ensures Decide(g, fd, sock, r).0.Emitted? ==> Decide(f, fd, sock, r).0 == Decide(g, fd, sock, r).0
  {
  }

  /** Once a socket with a positive descriptor exists it is kept, whatever
      the request; a failed creation leaves -1 and the next call retries. */
  lemma SocketKept(f: Filter, fd: int, sock: int, r: Request)
    ensures fd > 0 ==> Decide(f, fd, sock, r).1 == fd
    ensures fd <= 0 ==> Decide(f, fd, sock, r).1 in {fd, sock, -1}
  {
  }

  /** As written, any negative level given to LogInit silences every
      request. */
  lemma NegativeLevelSilences(newLevel: int, keyword: string, tag: string, fd: int, sock: int, r: Request)
    requires IntMin <= newLevel < 0
    ensures Decide(Filter(StoredLevel(newLevel), keyword, tag), fd, sock, r).0 == Dropped
  {
  }

  /** With the clamp working, a negative level lets every request of a
      known level through the level filter: a request is then emitted
      exactly when it passes the other filters. */
  lemma ClampedLevelAdmitsAll(newLevel: int, keyword: string, tag: string, fd: int, sock: int, r: Request)
    requires newLevel < 0
    ensures var f := Filter(ClampedLevel(newLevel), keyword, tag);
      Decide(f, fd, sock, r).0.Emitted? <==>
        r.level < LevelMax && r.flag <= ReadWrite && (tag == "" || r.logId == tag) &&
        (fd > 0 || sock >= 0) && (keyword == "" || Contains(FormatLine(r), keyword))
  {
    EmittedIffAdmitted(Filter(ClampedLevel(newLevel), keyword, tag), fd, sock, r);
  }

  /** LogFormatString: -1 when the buffer or the format is NULL (`text` is
      None for a NULL format); otherwise 0, with vsnprintf writing at most
      `size - 1` characters (nothing when `size` is 0; a negative size
      becomes a huge size_t and cuts nothing). `written` is the new buffer
      contents, None when untouched. */
  function LogFormatString(bufOk: bool, size: int, text: Option<string>): (r: (int, Option<string>))
    ensures r.0 == -1 <==> !bufOk || text.None?
    ensures r.0 != -1 ==> r.0 == 0
    ensures r.1.Some? <==> bufOk && text.Some? && size != 0
    ensures r.1.Some? ==> |r.1.value| <= |text.value| && r.1.value == text.value[..|r.1.value|]
    ensures r.1.Some? && size > 0 ==> |r.1.value| == if |text.value| < size then |text.value| else size - 1
    ensures r.1.Some? && size < 0 ==> r.1.value == text.value
  {
    if !bufOk || text.None? then (-1, None)
    else if size == 0 then (0, None)
    else if size < 0 then (0, text)
    else (0, Some(Truncate(text.value, size - 1)))
  }

  /** What LogBuf hands to LOG: the length warning, or the dump line. */
  datatype DumpOutcome = LengthError | Dump(text: string)

  /** A C `char` on a platform where it is signed. */
  predicate SignedChars(buf: seq<int>) {
    forall i :: 0 <= i < |buf| ==> -128 <= buf[i] < 128
  }

  /** `%02x` of a char: the char is promoted to int and read as a 32-bit
      unsigned int, so a negative one prints as eight digits. */
  function Group(b: int): (s: string)
    ensures |s| >= 3 && s[|s| - 1] == ' '
  {
    Hex02(b % 0x1_0000_0000) + " "
  }

  /** The loop of LogBuf: each sprintf writes its group and a NUL at
      `pos`, so the string is cut there and the group appended; `pos`
      advances by 3 whatever was written. */
  function Overlay(out: string, pos: nat, bytes: seq<int>): (r: string)
    requires pos <= |out|
    ensures |r| >= pos && r[..pos] == out[..pos]
    decreases |bytes|
  {
    if bytes == [] then out
    else
      var next := out[..pos] + Group(bytes[0]);
      var r := Overlay(next, pos + 3, bytes[1..]);
      assert next[..pos] == out[..pos];
      assert r[..pos] == r[..pos + 3][..pos];
      r
  }

  /** The header LogBuf writes first: head, ':', length, ':'. */
  function DumpHeader(head: string, len: int): (h: string)
    ensures |h| < MaxComBufLen
  {
    Truncate(head + ":" + Decimal(len) + ":", MaxComBufLen - 1)
  }

  /** LogBuf as written. */
  function LogBufSpec(head: string, buf: seq<int>, len: int): DumpOutcome
    requires SignedChars(buf) && len <= |buf|
  {
    var header := DumpHeader(head, len);
    if |header| + len * 3 + 1 >= MaxComBufLen then LengthError
    else Dump(Overlay(header, |header|, buf[..if len < 0 then 0 else len]))
  }

  /** LogBuf: the header, the length guard, then one `%02x ` group per
      byte written at three-character steps. */
  method LogBuf(head: string, buf: seq<int>, len: int) returns (out: DumpOutcome)
    requires SignedChars(buf) && len <= |buf|
    ensures out == LogBufSpec(head, buf, len)
  {
    var header := DumpHeader(head, len);
    if |header| + len * 3 + 1 >= MaxComBufLen {
      return LengthError;
    }
    var text := WriteGroups(header, buf, len);
    out := Dump(text);
  }

  /** The loop of LogBuf: from the end of the header, `len` groups written
      at three-character steps. */
  method WriteGroups(header: string, buf: seq<int>, len: int) returns (text: string)
    requires SignedChars(buf) && len <= |buf|
    ensures text == Overlay(header, |header|, buf[..if len < 0 then 0 else len])
  {
    text := header;
    var tmpLen := |header|;
    var i := 0;
    ghost var n := if len < 0 then 0 else len;
    ghost var bytes := buf[..n];
    assert |bytes| == n && bytes[0..] == bytes;
    while i < len
      invariant 0 <= i <= n && tmpLen == |header| + 3 * i && tmpLen <= |text|
      invariant Overlay(text, tmpLen, bytes[i..]) == Overlay(header, |header|, bytes)
    {
      var group := Group(buf[i]);
      assert bytes[i] == buf[i];
      OverlayStep(text, tmpLen, bytes, i, group);
      text := text[..tmpLen] + group;
      tmpLen := tmpLen + 3;
      i := i + 1;
    }
    assert i == n && bytes[i..] == [];
  }

  /** One turn of the loop is one step of Overlay. */
  lemma OverlayStep(out: string, pos: nat, bytes: seq<int>, i: nat, group: string)
    requires pos <= |out| && i < |bytes| && group == Group(bytes[i])
    ensures |group| >= 3
    ensures Overlay(out, pos, bytes[i..]) == Overlay(out[..pos] + group, pos + 3, bytes[i + 1..])
  {
    assert bytes[i..][0] == bytes[i] && bytes[i..][1..] == bytes[i + 1..];
  }

  /** The `%02x ` groups of bytes read as unsigned chars. */
  function HexDump(bytes: seq<int>): (s: string)
    ensures |s| == 3 * |bytes|
  {
    if bytes == [] then "" else
      Hex02Byte(bytes[0] % 256);
      Hex02(bytes[0] % 256) + " " + HexDump(bytes[1..])
  }

  /** With no negative byte, the loop appends exactly one three-character
      group per byte. */
  lemma {:induction false} OverlayNonNegative(out: string, bytes: seq<int>)
    requires SignedChars(bytes) && forall i :: 0 <= i < |bytes| ==> bytes[i] >= 0
    ensures Overlay(out, |out|, bytes) == out + HexDump(bytes)
    decreases |bytes|
  {
    if bytes != [] {
      var b := bytes[0];
      GroupOfByte(b);
      var next := out + Group(b);
      assert out[..|out|] == out;
      assert Overlay(out, |out|, bytes) == Overlay(next, |out| + 3, bytes[1..]);
      OverlayNonNegative(next, bytes[1..]);
      assert HexDump(bytes) == Group(b) + HexDump(bytes[1..]);
    }
  }

  /** A char that is not negative prints as the group the unsigned dump
      prints for it. */
  lemma GroupOfByte(b: int)
    requires 0 <= b < 256
    ensures Group(b) == Hex02(b % 256) + " " && |Group(b)| == 3
  {
    Hex02Byte(b);
    assert b % 0x1_0000_0000 == b % 256 == b;
  }

  /** LogBuf as intended, with each byte passed as an unsigned char. */
  function LogBufUnsigned(head: string, buf: seq<int>, len: int): DumpOutcome
    requires len <= |buf|
  {
    var header := DumpHeader(head, len);
    if |header| + len * 3 + 1 >= MaxComBufLen then LengthError
    else Dump(header + HexDump(buf[..if len < 0 then 0 else len]))
  }

  /** The intended dump fits the buffer with its NUL, and every byte can be
      read back from its two hex digits. */
  lemma {:induction false} UnsignedDumpRoundTrip(head: string, buf: seq<int>, len: int)
    requires len <= |buf|
    ensures LogBufUnsigned(head, buf, len).Dump? ==>
      var t := LogBufUnsigned(head, buf, len).text;
      var h := |DumpHeader(head, len)|;
      |t| + 1 <= MaxComBufLen && |t| == h + 3 * (if len < 0 then 0 else len) &&
      forall i :: 0 <= i < len ==>
        16 * DigitValue(t[h + 3 * i]) + DigitValue(t[h + 3 * i + 1]) == buf[i] % 256 &&
        t[h + 3 * i + 2] == ' '
  {
    if LogBufUnsigned(head, buf, len).Dump? {
      var header := DumpHeader(head, len);
      var bytes := buf[..if len < 0 then 0 else len];
      forall i | 0 <= i < len
        ensures 16 * DigitValue(HexDump(bytes)[3 * i]) + DigitValue(HexDump(bytes)[3 * i + 1]) == buf[i] % 256
        ensures HexDump(bytes)[3 * i + 2] == ' '
      {
        HexDumpAt(bytes, i);
      }
    }
  }

  /** Group `i` of a dump holds byte `i`. */
  lemma {:induction false} HexDumpAt(bytes: seq<int>, i: nat)
    requires i < |bytes|
    ensures 16 * DigitValue(HexDump(bytes)[3 * i]) + DigitValue(HexDump(bytes)[3 * i + 1]) == bytes[i] % 256
    ensures HexDump(bytes)[3 * i + 2] == ' '
    decreases i
  {
    Hex02Byte(bytes[0] % 256);
    if i > 0 {
      HexDumpAt(bytes[1..], i - 1);
      assert HexDump(bytes)[3 * i..] == HexDump(bytes[1..])[3 * (i - 1)..];
    }
  }

  /** A non-negative char prints as two digits, a negative one as eight. */
  lemma GroupLength(b: int)
    requires -128 <= b < 128
    ensures |Group(b)| == if b < 0 then 9 else 3
  {
    if b < 0 {
      var u := b + 0x1_0000_0000;
      assert b % 0x1_0000_0000 == u;
      assert Pow(16, 7) == 0x1000_0000 && Pow(16, 8) == 0x1_0000_0000;
      DigitsLength(u, 16, 8);
      assert Group(b) == Digits(u, 16) + " ";
    } else {
      GroupOfByte(b);
    }
  }

  /** Every group but the last is cut to three characters; the last is
      kept whole. */
  lemma {:induction false} OverlayLength(out: string, pos: nat, bytes: seq<int>)
    requires pos <= |out| && SignedChars(bytes) && bytes != []
    ensures |Overlay(out, pos, bytes)| == pos + 3 * (|bytes| - 1) + |Group(bytes[|bytes| - 1])|
    decreases |bytes|
  {
    var next := out[..pos] + Group(bytes[0]);
    if |bytes| > 1 {
      OverlayLength(next, pos + 3, bytes[1..]);
      assert bytes[1..][|bytes[1..]| - 1] == bytes[|bytes| - 1];
    }
  }

  /** As written, a negative last byte makes the dump six characters
      longer than the guard allowed for; when the guard is close to its
      bound, the dump and its NUL no longer fit the 65535-byte buffer. */
  lemma NegativeLastByteOverruns(head: string, buf: seq<int>, len: int)
    requires SignedChars(buf) && 1 <= len <= |buf| && buf[len - 1] < 0
    requires LogBufSpec(head, buf, len).Dump?
    ensures |LogBufSpec(head, buf, len).text| == |DumpHeader(head, len)| + 3 * len + 6
  {
    var header := DumpHeader(head, len);
    var bytes := buf[..len];
    OverlayLength(header, |header|, bytes);
    GroupLength(bytes[len - 1]);
  }

  /** The length guard lets through a dump that does not fit: a head of
      65525 characters and the one byte 0x80 pass it, yet the text and its
      NUL need 65538 bytes of the 65535-byte buffer. */
  lemma GuardAdmitsOverrun()
    ensures exists head: string, buf: seq<int> ::
      SignedChars(buf) && |buf| >= 1 && LogBufSpec(head, buf, 1).Dump? &&
      |LogBufSpec(head, buf, 1).text| + 1 > MaxComBufLen
  {
    var head := seq(65525, _ => 'h');
    var buf := [-128];
    assert Digits(1, 10) == "1";
    assert Decimal(1) == "1";
    assert |head + ":" + Decimal(1) + ":"| == 65528;
    assert |DumpHeader(head, 1)| == 65528;
    NegativeLastByteOverruns(head, buf, 1);
  }

  /** The hex digits of 0xffffff80, the value `%02x` receives for the
      signed char -128. */
  lemma HexOfMinusOneTwentyEight()
    ensures Group(-128) == "ffffff80 "
  {
    assert -128 % 0x1_0000_0000 == 0xffffff80;
    assert Group(-128) == Digits(0xffffff80, 16) + " ";
    assert Digits(0xf, 16) == "f";
    assert Digits(0xff, 16) == Digits(0xf, 16) + "f";
    assert Digits(0xfff, 16) == Digits(0xff, 16) + "f";
    assert Digits(0xffff, 16) == Digits(0xfff, 16) + "f";
    assert Digits(0xfffff, 16) == Digits(0xffff, 16) + "f";
    assert Digits(0xffffff, 16) == Digits(0xfffff, 16) + "f";
    assert Digits(0xffffff8, 16) == Digits(0xffffff, 16) + "8";
    assert Digits(0xffffff80, 16) == Digits(0xffffff8, 16) + "0";
  }

  lemma DumpHeaderOfTwo()
    ensures DumpHeader("h", 2) == "h:2:"
  {
    assert Digits(2, 10) == "2";
    assert Decimal(2) == "2";
  }

  /** Dumping the bytes 0x80 0x01 under the head "h" as written: the
      second group overwrites all but "fff" of the first. */
  lemma DumpOfHighByte()
    ensures LogBufSpec("h", [-128, 1], 2) == Dump("h:2:fff01 ")
  {
    DumpHeaderOfTwo();
    HexOfMinusOneTwentyEight();
    assert Digits(1, 16) == "1";
    assert Group(1) == "01 ";
    var kept := "h:2:fff";
    var first := kept + "fff80 ";
    assert "h:2:" + "ffffff80 " == first;
    assert Overlay("h:2:", 4, [-128, 1]) == Overlay(first, 7, [1]);
    assert first[..|kept|] == kept;
    assert Overlay(first, 7, [1]) == Overlay(kept + "01 ", 10, []);
    assert kept + "01 " == "h:2:fff01 ";
    assert [-128, 1][..2] == [-128, 1];
  }

  /** The same bytes dumped as intended read "80 01 ". */
  lemma UnsignedDumpOfHighByte()
    ensures LogBufUnsigned("h", [-128, 1], 2) == Dump("h:2:80 01 ")
  {
    DumpHeaderOfTwo();
    assert [-128, 1][..2] == [-128, 1];
    assert Digits(1, 16) == "1";
    assert Digits(8, 16) == "8";
    assert Digits(128, 16) == Digits(8, 16) + "0";
    assert HexDump([1]) == "01 " + HexDump([]);
    assert HexDump([-128, 1]) == "80 " + HexDump([1]);
  }
}
