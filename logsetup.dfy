/** logsetup.py: the string logic of the multi-line log formatter and the
    level threshold of the standard-output filter. */
module LogSetup {
  import opened Wrappers
  import opened Strings

  /** The numeric levels of Python's logging module. */
  const DEBUG: int := 10
  const INFO: int := 20
  const WARNING: int := 30
  const ERROR: int := 40
  const CRITICAL: int := 50

  /** The width of what `formatMessage` put in front of the message: the text
      before `msg` when the formatted line ends with it, and 0 otherwise. */
  function HeaderLength(initialStr: string, msg: string): (n: nat)
    ensures n <= |initialStr|
    ensures EndsWith(initialStr, msg) ==> initialStr[..n] + msg == initialStr
    ensures !EndsWith(initialStr, msg) ==> n == 0
  {
    if EndsWith(initialStr, msg) then |initialStr| - |msg| else 0
  }

  /** What every newline becomes: a newline and `headerLength` columns, the
      last two of which read "| " when there are at least two. */
  function Replacement(headerLength: nat): (r: string)
    ensures |r| == headerLength + 1 && r[0] == '\n'
    ensures headerLength >= 2 ==>
      && r[headerLength - 1..] == "| "
      && forall i | 1 <= i < headerLength - 1 :: r[i] == ' '
    ensures headerLength < 2 ==> forall i | 1 <= i < |r| :: r[i] == ' '
  {
    var r := "\n" + Spaces(headerLength);
    if headerLength >= 2 then r[..|r| - 2] + "| " else r
  }

  /** `s.replace('\n', Replacement(headerLength))`: only the newlines change,
      so text without one comes back as it is, and nothing gets shorter. */
  function Reindent(s: string, headerLength: nat): (r: string)
    ensures (forall i | 0 <= i < |s| :: s[i] != '\n') ==> r == s
    ensures |s| <= |r|
  {
    ReplaceChar(s, '\n', Replacement(headerLength))
  }

  /** Appending traceback or stack text: a newline is put in between unless
      the text so far already ends with one (`s[-1:] != "\n"`). */
  function AppendOnNewLine(s: string, extra: string): (r: string)
    ensures |s| + |extra| <= |r| <= |s| + 1 + |extra| && |extra| < |r|
    ensures r[..|s|] == s && r[|r| - |extra|..] == extra
    ensures r[|r| - |extra| - 1] == '\n'
    ensures (s != [] && s[|s| - 1] == '\n') <==> r == s + extra
    ensures (s == [] || s[|s| - 1] != '\n') <==> r == s + "\n" + extra
  {
    if s == [] || s[|s| - 1] != '\n' then s + "\n" + extra else s + extra
  }

  /** The assembled string before re-indentation: the formatted line, then the
      exception text if any, then the stack text if any ("" stands for unset). */
  function WithExtras(initialStr: string, excText: string, stackText: string): (r: string)
    ensures |initialStr| <= |r| && r[..|initialStr|] == initialStr
    ensures excText == "" && stackText == "" ==> r == initialStr
    ensures excText != "" && stackText == "" ==> EndsWith(r, excText) && |r| <= |initialStr| + 1 + |excText|
    ensures stackText != "" ==> EndsWith(r, stackText)
    ensures excText != "" && stackText == "" ==> r == AppendOnNewLine(initialStr, excText)
    ensures stackText != "" ==> r == AppendOnNewLine(WithExtras(initialStr, excText, ""), stackText)
    ensures |r| <= |initialStr| + |excText| + |stackText| + 2
    decreases |stackText|
  {
    var s := if excText != "" then AppendOnNewLine(initialStr, excText) else initialStr;
    if stackText != "" then AppendOnNewLine(s, stackText) else s
  }

  /** Each newline becomes `Replacement(headerLength)` and the text on either
      side is re-indented on its own. With the identity on text without
      newlines, this fixes `Reindent` on every string. */
  lemma ReindentAtNewline(a: string, b: string, headerLength: nat)
    ensures Reindent(a + "\n" + b, headerLength)
      == Reindent(a, headerLength) + Replacement(headerLength) + Reindent(b, headerLength)
  {
    var rep := Replacement(headerLength);
    ReplaceCharAppend(a + "\n", b, '\n', rep);
    ReplaceCharAppend(a, "\n", '\n', rep);
  }

  /** Re-indentation loses nothing: dropping the `headerLength` columns after
      each newline restores the assembled string. */
  lemma ReindentIsReversible(s: string, headerLength: nat)
    ensures DropAfter(Reindent(s, headerLength), '\n', headerLength) == s
  {
    var rep := Replacement(headerLength);
    assert rep == [rep[0]] + rep[1..];
    DropAfterReplaceChar(s, '\n', rep[1..]);
  }

  /** A log record: the fields `format` reads and writes. `excInfo` is what
      `formatException` renders for `exc_info` (None when there is no
      exception), `excText` the cached traceback ("" when unset), `stackText`
      what `formatStack` renders for `stack_info` ("" when there is none),
      `asctime` the rendered time stamp ("" until `format` sets it). The
      fields read only by `getMessage` and `formatMessage` are not modelled:
      their results enter `Format` as parameters. */
  class LogRecord {
    var levelno: int
    var message: string
    var excInfo: Option<string>
    var excText: string
    var stackText: string
    var asctime: string

    constructor (levelno: int, excInfo: Option<string>, stackText: string)
      ensures this.levelno == levelno && this.excInfo == excInfo && this.stackText == stackText
      ensures message == "" && excText == "" && asctime == ""
    {
      this.levelno := levelno;
      this.excInfo := excInfo;
      this.stackText := stackText;
      message := "";
      excText := "";
      asctime := "";
    }
  }

  /** CustMultiLineFormatter.format. `msg` is `record.getMessage()`, `time` is
      `formatTime(record, datefmt)` when the format uses the time and None
      otherwise, and `initialStr` is `formatMessage(record)`; all three are
      computed by the logging library. The record keeps the message, the time
      stamp and the cached traceback; the result is the assembled string with
      every newline re-indented. */
  method Format(record: LogRecord, msg: string, time: Option<string>, initialStr: string) returns (s: string)
    modifies record
    ensures record.message == msg
    ensures record.asctime == if time.Some? then time.value else old(record.asctime)
    ensures record.excText ==
      if old(record.excInfo).Some? && old(record.excText) == "" then old(record.excInfo).value
      else old(record.excText)
    ensures record.levelno == old(record.levelno) && record.excInfo == old(record.excInfo)
    ensures record.stackText == old(record.stackText)
    ensures s == Reindent(WithExtras(initialStr, record.excText, record.stackText), HeaderLength(initialStr, msg))
  {
    record.message := msg;
    if time.Some? {
      record.asctime := time.value;
    }
    s := initialStr;
    if record.excInfo.Some? {
      if record.excText == "" {
        record.excText := record.excInfo.value;
      }
    }
    // The traceback and then the stack, each on a new line.
    s := WithExtras(s, record.excText, record.stackText);
    var headerLength := 0;
    if EndsWith(initialStr, msg) {
      headerLength := |initialStr| - |msg|;
    }
    assert headerLength == HeaderLength(initialStr, msg);
    var replaceStr := "\n" + Spaces(headerLength);
    if headerLength >= 2 {
      replaceStr := replaceStr[..|replaceStr| - 2] + "| ";
    }
    assert replaceStr == Replacement(headerLength);
    s := ReplaceChar(s, '\n', replaceStr);
  }

  /** StdOutFilter.filter: standard output takes only records below ERROR. */
  predicate StdOutFilter(levelno: int): (r: bool)
    ensures levelno == DEBUG || levelno == INFO || levelno == WARNING ==> r
    ensures levelno == ERROR || levelno == CRITICAL ==> !r
  {
    levelno < ERROR
  }

  /** The standard-error handler's level: it takes records at ERROR or above. */
  predicate StdErrHandlerAccepts(levelno: int) {
    levelno >= ERROR
  }

  /** With both handlers installed, every record goes to exactly one of the two
      streams. */
  lemma StreamsPartitionLevels(levelno: int)
    ensures StdOutFilter(levelno) <==> !StdErrHandlerAccepts(levelno)
  {
  }
}
