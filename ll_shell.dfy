/** The low-level register shell (`LLShell`): one command line out, one
    reply line back. The reply's first comma-separated token is a status
    code; the rest is data. Byte reads and writes, bit-field reads and
    read-modify-write bit-field writes are built on that exchange. */
module LLShell {
  import opened Py
  import opened Arith
  import opened Transport

  const READ_REG_CMD := "rr"
  const WRITE_REG_CMD := "wr"
  const EXECUTE_CMD := "ex"
  const RESET_CMD := "mcu_rst"
  const SUCCESS := "0"
  /** What a device that has just rebooted leaves in the buffer before the code. */
  const RESET_SUCCESS: string := [0 as char, '0']
  const SUCCESS_MSG := "EOK-command success [0]"
  const TIMEOUT_MSG := "Timeout occured"

  datatype Kind = Success | Error | Timeout

  /** The `data` entry of a reply: `None`, an `int`, a list of `int`s, the
      list of raw tokens after the status, or one raw token. */
  datatype Data = NoData | Int(n: int) | Ints(xs: seq<int>) | Strs(ss: seq<string>) | Str(s: string)

  /** The dictionary every command returns. */
  datatype CmdInfo = CmdInfo(cmd: string, msg: string, data: Data, result: Kind)

  /** What `_populate_cmd_info` adds to the dictionary. */
  datatype Parsed = Parsed(msg: string, data: Data, result: Kind)

  /** One entry of the platform's errno tables: `errno.errorcode[code]` and `os.strerror(code)`. */
  datatype ErrnoName = ErrnoName(symbol: string, description: string)

  /** The errno tables, a partial function: a code outside it raises `KeyError`. */
  type ErrnoTable = map<int, ErrnoName>

  /** The value a data token is taken for: a short token is one integer, a
      longer `0x` token is a hex byte string sent most significant byte
      first, anything else (or a token that does not parse) is kept as the
      list of tokens after the status. */
  function TryParseData(data: seq<string>): (r: Data)
    ensures r == NoData <==> |data| <= 1
    ensures r.Int? <==> |data| > 1 && |data[1]| <= 10 && ParseInt0(data[1]).Some?
    ensures r.Int? ==> ParseInt0(data[1]) == Some(r.n)
    ensures r.Ints? <==> |data| > 1 && |data[1]| > 10 && StartsWith(data[1], "0x") && FromHex(data[1][2..]).Some?
    ensures r.Ints? ==> r.xs == Reverse(FromHex(data[1][2..]).value)
    ensures r.Strs? ==> r.ss == data[1..]
    ensures !r.Str?
  {
    if |data| <= 1 then NoData
    else
      var tok := data[1];
      if |tok| - 2 <= 8 then
        match ParseInt0(tok)
        case Some(n) => Int(n)
        case None => Strs(data[1..])
      else if StartsWith(tok, "0x") then
        match FromHex(tok[2..])
        case Some(bs) => Ints(Reverse(bs))
        case None => Strs(data[1..])
      else Strs(data[1..])
  }

  /** `"{symbol}-{description} [{code}]"`, or `None` where `errno.errorcode` raises `KeyError`. */
  function ErrorMsg(code: int, errnos: ErrnoTable): (r: Option<string>)
    ensures r.Some? <==> code in errnos
  {
    if code in errnos then
      Some(errnos[code].symbol + "-" + errnos[code].description + " [" + IntToString(code) + "]")
    else None
  }

  const INT0_ERROR := "invalid literal for int() with base 0: "

  /** `"Unknown Error {exc}"` for the `ValueError` that `int(tok, 0)` raises,
      whose text ends in the token's `repr` cut to 200 characters. */
  function UnknownErrorMsg(tok: string): string {
    "Unknown Error " + INT0_ERROR + Truncate(Repr(tok), 200)
  }

  /** `_populate_cmd_info`: the status token decides success or error. A
      status that is not an integer literal is an error carrying the token
      itself; an integer status is looked up in the errno tables, and one
      they do not know raises `KeyError`. */
  function PopulateCmdInfo(data: seq<string>, errnos: ErrnoTable): (r: Outcome<Parsed>)
    requires |data| >= 1
    ensures (r.Ok? && r.value.result == Success) <==> data[0] == SUCCESS || data[0] == RESET_SUCCESS
    ensures data[0] == SUCCESS || data[0] == RESET_SUCCESS ==>
      r == Ok(Parsed(SUCCESS_MSG, TryParseData(data), Success))
    ensures data[0] != SUCCESS && data[0] != RESET_SUCCESS && ParseInt0(data[0]).None? ==>
      r == Ok(Parsed(UnknownErrorMsg(data[0]), Str(data[0]), Error))
    ensures data[0] != SUCCESS && data[0] != RESET_SUCCESS && ParseInt0(data[0]).Some? ==>
      var code := ParseInt0(data[0]).value;
      && (r.Raised? <==> code !in errnos)
      && (r.Raised? ==> r.exc == KeyError)
      && (r.Ok? ==> r.value == Parsed(ErrorMsg(code, errnos).value, Int(code), Error))
  {
    // a reset leaves a NUL in the buffer in front of the success code
    var data' := if data[0] == RESET_SUCCESS then data[0 := SUCCESS] else data;
    if data'[0] == SUCCESS then
      assert data'[1..] == data[1..];
      Ok(Parsed(SUCCESS_MSG, TryParseData(data'), Success))
    else
      match ParseInt0(data'[0])
      case None => Ok(Parsed(UnknownErrorMsg(data'[0]), Str(data'[0]), Error))
      case Some(code) =>
        match ErrorMsg(code, errnos)
        case Some(m) => Ok(Parsed(m, Int(code), Error))
        case None => Raised(KeyError)
  }

  /** The reply line, newlines removed, split on commas: the tokens join back
      with commas into the line without its newlines, and no token holds a
      comma or a newline. */
  function ReplyTokens(line: string): (r: seq<string>)
    ensures |r| >= 1
    ensures Join(r, ",") == RemoveAll(line, "\n")
    ensures forall k :: 0 <= k < |r| ==> ',' !in r[k] && '\n' !in r[k]
  {
    var text := RemoveAll(line, "\n");
    JoinSplit(text, ",");
    SplitCharNoSep(text, ',');
    RemoveCharGone(line, '\n');
    JoinPiecesHaveNo(Split(text, ","), ",", '\n');
    Split(text, ",")
  }

  /** A reply built from clean tokens, commas between them and a newline at
      the end, splits back into exactly those tokens. */
  lemma ReplyOfTokens(toks: seq<string>)
    requires |toks| >= 1
    requires forall k :: 0 <= k < |toks| ==> ',' !in toks[k] && '\n' !in toks[k]
    ensures ReplyTokens(Join(toks, ",") + "\n") == toks
  {
    JoinHasNo(toks, ",", '\n');
    RemoveTrailing(Join(toks, ","), '\n');
    SplitJoin(toks, ",");
  }

  /** `send_cmd`: write the command, read one line, parse it. */
  function SendCmd(link: Link, cmd: string, errnos: ErrnoTable): (r: (Outcome<CmdInfo>, Link))
    ensures r.1.sent == link.sent + [cmd]
    ensures r.1.inbox == if link.inbox == [] then [] else link.inbox[1..]
    ensures r.0.Ok? ==> r.0.value.cmd == cmd
    ensures r.0.Raised? ==> r.0.exc == KeyError
    ensures (r.0.Ok? && r.0.value.result == Timeout) <==> (link.inbox == [] || link.inbox[0] == "")
    ensures r.0.Ok? && r.0.value.result == Timeout ==> r.0.value.data == NoData && r.0.value.msg == TIMEOUT_MSG
    ensures link.inbox != [] && link.inbox[0] != "" ==>
      var parsed := PopulateCmdInfo(ReplyTokens(link.inbox[0]), errnos);
      && (parsed.Raised? ==> r.0 == Raised(parsed.exc))
      && (parsed.Ok? ==> r.0 == Ok(CmdInfo(cmd, parsed.value.msg, parsed.value.data, parsed.value.result)))
  {
    var (line, link') := link.Write(cmd).Read();
    if line == "" then
      (Ok(CmdInfo(cmd, TIMEOUT_MSG, NoData, Timeout)), link')
    else
      match PopulateCmdInfo(ReplyTokens(line), errnos)
      case Ok(p) => (Ok(CmdInfo(cmd, p.msg, p.data, p.result)), link')
      case Raised(e) => (Raised(e), link')
  }

  /** A device reply of clean tokens is parsed from exactly those tokens, and
      the command sent is echoed beside the parse. */
  lemma SendCmdReply(link: Link, cmd: string, errnos: ErrnoTable, toks: seq<string>)
    requires |toks| >= 1
    requires forall k :: 0 <= k < |toks| ==> ',' !in toks[k] && '\n' !in toks[k]
    requires link.inbox != [] && link.inbox[0] == Join(toks, ",") + "\n"
    ensures PopulateCmdInfo(toks, errnos).Raised? ==>
      SendCmd(link, cmd, errnos).0 == Raised(PopulateCmdInfo(toks, errnos).exc)
    ensures PopulateCmdInfo(toks, errnos).Ok? ==>
      var p := PopulateCmdInfo(toks, errnos).value;
      SendCmd(link, cmd, errnos).0 == Ok(CmdInfo(cmd, p.msg, p.data, p.result))
  {
    ReplyOfTokens(toks);
  }

  function ReadCmd(index: string, size: string): string {
    READ_REG_CMD + " " + index + " " + size
  }

  /** `read_bytes(index, size)`: the arguments as Python formats them. One
      line `"rr {index} {size}"` goes out, and it is the `cmd` reported. */
  function ReadBytes(link: Link, index: string, size: string, errnos: ErrnoTable): (r: (Outcome<CmdInfo>, Link))
    ensures r.1.sent == link.sent + [READ_REG_CMD + " " + index + " " + size]
    ensures r.1.inbox == if link.inbox == [] then [] else link.inbox[1..]
    ensures r.0.Ok? ==> r.0.value.cmd == READ_REG_CMD + " " + index + " " + size
  {
    SendCmd(link, ReadCmd(index, size), errnos)
  }

  /** `execute_changes`: the one line `"ex"` goes out. */
  function ExecuteChanges(link: Link, errnos: ErrnoTable): (r: (Outcome<CmdInfo>, Link))
    ensures r.1.sent == link.sent + ["ex"]
    ensures r.1.inbox == if link.inbox == [] then [] else link.inbox[1..]
    ensures r.0.Ok? ==> r.0.value.cmd == "ex"
  {
    SendCmd(link, EXECUTE_CMD, errnos)
  }

  /** `reset_mcu`: the one line `"mcu_rst"` goes out. */
  function ResetMcu(link: Link, errnos: ErrnoTable): (r: (Outcome<CmdInfo>, Link))
    ensures r.1.sent == link.sent + ["mcu_rst"]
    ensures r.1.inbox == if link.inbox == [] then [] else link.inbox[1..]
    ensures r.0.Ok? ==> r.0.value.cmd == "mcu_rst"
  {
    SendCmd(link, RESET_CMD, errnos)
  }

  // ---------------------------------------------------------------------
  // Writing bytes

  /** The data handed to `write_bytes`: an `int`, a list, or any other
      value (`None`, a string, bytes, a float), which has no `>>`. */
  datatype WriteData = WInt(n: int) | WList(items: seq<Atom>) | WOther

  function AtomText(a: Atom): string {
    match a
    case AInt(i) => IntToString(i)
    case AStr(s) => s
  }

  function Texts(xs: seq<int>): (r: seq<string>)
    ensures |r| == |xs| && forall i :: 0 <= i < |xs| ==> r[i] == IntToString(xs[i])
  {
    seq(|xs|, i requires 0 <= i < |xs| => IntToString(xs[i]))
  }

  /** The list `write_bytes` puts on the wire before reversing it: the hex
      bytes of a `0x` string in front, or the elements themselves. */
  function ListItems(xs: seq<Atom>): (r: Outcome<seq<string>>)
  {
    if xs == [] then Raised(IndexError)
    else if xs[0].AStr? && StartsWith(xs[0].s, "0x") then
      match FromHex(RemoveAll(xs[0].s, "0x"))
      case Some(bs) => Ok(Texts(bs))
      case None => Raised(ValueError)
    else Ok(AtomTexts(xs))
  }

  function AtomTexts(xs: seq<Atom>): (r: seq<string>)
    ensures |r| == |xs| && forall i :: 0 <= i < |xs| ==> r[i] == AtomText(xs[i])
  {
    seq(|xs|, i requires 0 <= i < |xs| => AtomText(xs[i]))
  }

  /** The tokens after the address: the `size` low bytes of an integer,
      least significant first, or a list's items in reverse order. Any other
      value raises TypeError at its first shift, so only when `size > 0`. */
  function WriteTokens(data: WriteData, size: int): (r: Outcome<seq<string>>)
    ensures data.WInt? ==> r == Ok(Texts(WireBytes(data.n, if size < 0 then 0 else size)))
    ensures data.WList? ==> (r.Ok? <==> ListItems(data.items).Ok?)
    ensures data.WList? && r.Ok? ==> r.value == Reverse(ListItems(data.items).value)
    ensures data.WOther? ==> (r.Raised? <==> size > 0)
    ensures data.WOther? && r.Raised? ==> r.exc == TypeError
    ensures data.WOther? && r.Ok? ==> r.value == []
  {
    match data
    case WInt(n) => Ok(Texts(WireBytes(n, if size < 0 then 0 else size)))
    case WList(xs) =>
      var items :- ListItems(xs);
      Ok(Reverse(items))
    case WOther => if size > 0 then Raised(TypeError) else Ok([])
  }

  /** `"wr {index}"` followed by one space-separated token per byte. */
  function WriteCmd(index: string, data: WriteData, size: int): Outcome<string> {
    var tokens :- WriteTokens(data, size);
    Ok(Join([WRITE_REG_CMD, index] + tokens, " "))
  }

  /** The loop of `write_bytes` that builds the command text. */
  method EncodeWriteCmd(index: string, data: WriteData, size: int) returns (r: Outcome<string>)
    ensures r == WriteCmd(index, data, size)
  {
    var head := [WRITE_REG_CMD, index];
    assert WRITE_REG_CMD + " " + index == Join(head, " ");
    match data
    case WInt(n) =>
      var cmd := AppendBytes(head, n, size);
      r := Ok(cmd);
    case WList(xs) =>
      if xs == [] {
        return Raised(IndexError);
      }
      var items;
      if xs[0].AStr? && StartsWith(xs[0].s, "0x") {
        match FromHex(RemoveAll(xs[0].s, "0x"))
        case None =>
          return Raised(ValueError);
        case Some(bs) =>
          items := Texts(bs);
      } else {
        items := AtomTexts(xs);
      }
      assert ListItems(xs) == Ok(items);
      var cmd := AppendReversed(head, items);
      r := Ok(cmd);
    case WOther =>
      if size > 0 {
        return Raised(TypeError);
      }
      assert head + [] == head;
      r := Ok(Join(head, " "));
  }

  /** `for i in range(0, size): cmd += ' {}'.format((data >> (i * 8)) & 0xFF)` */
  method AppendBytes(head: seq<string>, n: int, size: int) returns (cmd: string)
    requires |head| >= 1
    ensures cmd == Join(head + Texts(WireBytes(n, if size < 0 then 0 else size)), " ")
  {
    cmd := Join(head, " ");
    var i := 0;
    assert head + Texts(WireBytes(n, 0)) == head;
    while i < size
      invariant 0 <= i && (size >= 0 ==> i <= size) && (size < 0 ==> i == 0)
      invariant cmd == Join(head + Texts(WireBytes(n, i)), " ")
    {
      var b := (n / Pow2(8 * i)) % 256;
      JoinAppend(head + Texts(WireBytes(n, i)), " ", IntToString(b));
      assert Texts(WireBytes(n, i + 1)) == Texts(WireBytes(n, i)) + [IntToString(b)];
      assert head + Texts(WireBytes(n, i + 1)) == (head + Texts(WireBytes(n, i))) + [IntToString(b)];
      cmd := cmd + " " + IntToString(b);
      i := i + 1;
    }
  }

  /** `for i in range(0, len(data)): cmd += ' {}'.format(data[len(data) - i - 1])` */
  method AppendReversed(head: seq<string>, items: seq<string>) returns (cmd: string)
    requires |head| >= 1
    ensures cmd == Join(head + Reverse(items), " ")
  {
    cmd := Join(head, " ");
    assert head + Reverse(items)[..0] == head;
    for i := 0 to |items|
      invariant cmd == Join(head + Reverse(items)[..i], " ")
    {
      JoinAppend(head + Reverse(items)[..i], " ", items[|items| - i - 1]);
      assert Reverse(items)[..i + 1] == Reverse(items)[..i] + [items[|items| - i - 1]];
      assert head + Reverse(items)[..i + 1] == (head + Reverse(items)[..i]) + [items[|items| - i - 1]];
      cmd := cmd + " " + items[|items| - i - 1];
    }
    assert Reverse(items)[..|items|] == Reverse(items);
  }

  /** `write_bytes(index, data, size)`; a malformed list raises before anything is sent. */
  function WriteBytes(link: Link, index: string, data: WriteData, size: int, errnos: ErrnoTable): (r: (Outcome<CmdInfo>, Link))
    ensures WriteCmd(index, data, size).Raised? ==> r == (Raised(WriteCmd(index, data, size).exc), link)
    ensures WriteCmd(index, data, size).Ok? ==> r == SendCmd(link, WriteCmd(index, data, size).value, errnos)
  {
    match WriteCmd(index, data, size)
    case Raised(e) => (Raised(e), link)
    case Ok(cmd) => SendCmd(link, cmd, errnos)
  }

  /** A value that is neither an integer nor a list sends nothing and raises
      TypeError whenever at least one byte is asked for; with no bytes asked
      for, the bare `wr` command goes out. */
  lemma WriteOtherRaises(link: Link, index: string, size: int, errnos: ErrnoTable)
    ensures size > 0 ==> WriteBytes(link, index, WOther, size, errnos) == (Raised(TypeError), link)
    ensures size <= 0 ==>
      WriteBytes(link, index, WOther, size, errnos) == SendCmd(link, WRITE_REG_CMD + " " + index, errnos)
  {
    if size <= 0 {
      assert [WRITE_REG_CMD, index] + [] == [WRITE_REG_CMD, index];
      assert Join([WRITE_REG_CMD, index], " ") == WRITE_REG_CMD + " " + index;
    }
  }

  // ---------------------------------------------------------------------
  // Bit fields

  /** Python's `int(a / b)` for `b > 0`: true division truncated toward zero. */
  function TruncDiv(a: int, b: int): int
    requires b > 0
  {
    if a >= 0 then a / b else -((-a) / b)
  }

  /** `int((width - 1 + offset) / 8 + 1)`: the number of bytes read for a
      bit field. For a field of `width` bits at bit `offset`, it is the fewest
      whole bytes that hold bits `0 .. offset + width - 1`. */
  function Span(width: int, offset: int): (r: int)
    ensures width + offset >= 0 ==> r >= 0 && 8 * r >= offset + width > 8 * (r - 1)
    ensures width + offset <= 0 ==> r <= 0
  {
    TruncDiv(width + offset + 7, 8)
  }

  function BitsSuffix(op: string, index: int, offset: int, width: int): string {
    op + " " + IntToString(index) + " " + IntToString(offset) + " " + IntToString(width)
  }

  /** `read_bits(index, offset, width)`: read the covering bytes, then shift
      and mask. A failed read is returned as it came. */
  function ReadBits(link: Link, index: int, offset: int, width: int, errnos: ErrnoTable): (r: (Outcome<CmdInfo>, Link))
    ensures r.1 == ReadBytes(link, IntToString(index), IntToString(Span(width, offset)), errnos).1
    ensures var read := ReadBytes(link, IntToString(index), IntToString(Span(width, offset)), errnos).0;
      read.Raised? || read.value.result != Success ==> r.0 == read
    ensures var read := ReadBytes(link, IntToString(index), IntToString(Span(width, offset)), errnos).0;
      read.Ok? && read.value.result == Success ==>
        && (!read.value.data.Int? ==> r.0 == Raised(TypeError))
        && (read.value.data.Int? && offset < 0 ==> r.0 == Raised(ValueError))
        && (read.value.data.Int? && offset >= 0 && width < 0 ==> r.0 == Raised(TypeError))
        && (read.value.data.Int? && offset >= 0 && width >= 0 ==>
              r.0 == Ok(read.value.(cmd := read.value.cmd + ", " + BitsSuffix("read_bits", index, offset, width),
                                    data := Int(Bits(read.value.data.n, offset, width)))))
  {
    var span := Span(width, offset);
    var (read, link') := ReadBytes(link, IntToString(index), IntToString(span), errnos);
    match read
    case Raised(e) => (Raised(e), link')
    case Ok(info) =>
      if info.result != Success then (Ok(info), link')
      else if !info.data.Int? then (Raised(TypeError), link')
      else if offset < 0 then (Raised(ValueError), link')
      else if width < 0 then (Raised(TypeError), link')
      else
        var cmd := info.cmd + ", " + BitsSuffix("read_bits", index, offset, width);
        (Ok(info.(cmd := cmd, data := Int(Bits(info.data.n, offset, width)))), link')
  }

  /** `write_bits(index, offset, width, value)`: read the covering bytes, put
      `value` into bits `[offset, offset + width)` and write the same number
      of bytes back. A negative width makes `int(2**width - 1)` zero, so
      nothing is replaced. */
  function WriteBits(link: Link, index: int, offset: int, width: int, value: WriteData, errnos: ErrnoTable): (r: (Outcome<CmdInfo>, Link))
    ensures var span := Span(width, offset);
      var (read, l1) := ReadBytes(link, IntToString(index), IntToString(span), errnos);
      && (read.Raised? ==> r == (read, l1))
      && (read.Ok? && read.value.result != Success ==> r == (read, l1))
      && (read.Ok? && read.value.result == Success && offset < 0 ==> r == (Raised(ValueError), l1))
      && (read.Ok? && read.value.result == Success && offset >= 0 && !read.value.data.Int? ==>
            r == (Raised(TypeError), l1))
      && (read.Ok? && read.value.result == Success && offset >= 0 && read.value.data.Int? && !value.WInt? ==>
            r == (Raised(TypeError), l1))
      && (read.Ok? && read.value.result == Success && offset >= 0 && read.value.data.Int? && value.WInt? ==>
            var written := Splice(read.value.data.n, offset, if width < 0 then 0 else width, value.n);
            var (write, l2) := WriteBytes(l1, IntToString(index), WInt(written), span, errnos);
            && r.1 == l2
            && (write.Raised? ==> r.0 == write)
            && (write.Ok? ==>
                  && r.0 == Ok(write.value.(cmd := read.value.cmd + write.value.cmd
                                           + (if write.value.result == Success
                                              then "," + BitsSuffix("write_bits", index, offset, width) + " " + IntToString(value.n)
                                              else "")))))
      && (r.1 != l1 ==> read.Ok? && read.value.result == Success && offset >= 0 && read.value.data.Int? && value.WInt?)
  {
    var span := Span(width, offset);
    var (read, l1) := ReadBytes(link, IntToString(index), IntToString(span), errnos);
    match read
    case Raised(e) => (Raised(e), l1)
    case Ok(info) =>
      if info.result != Success then (Ok(info), l1)
      else if offset < 0 then (Raised(ValueError), l1)
      else if !info.data.Int? then (Raised(TypeError), l1)
      else if !value.WInt? then (Raised(TypeError), l1)
      else
        var w: nat := if width < 0 then 0 else width;
        var shifted := Splice(info.data.n, offset, w, value.n);
        var (write, l2) := WriteBytes(l1, IntToString(index), WInt(shifted), span, errnos);
        match write
        case Raised(e) => (Raised(e), l2)
        case Ok(winfo) =>
          var sent := info.cmd + winfo.cmd
            + (if winfo.result == Success
               then "," + BitsSuffix("write_bits", index, offset, width) + " " + IntToString(value.n)
               else "");
          (Ok(winfo.(cmd := sent)), l2)
  }

  // ---------------------------------------------------------------------
  // Properties of the exchange

  /** A reply whose status token is a NUL followed by the success code is
      read exactly as the plain success code: a successful command message
      and the data that follows. */
  lemma ResetReplyIsSuccess(rest: seq<string>, errnos: ErrnoTable)
    ensures PopulateCmdInfo([RESET_SUCCESS] + rest, errnos) == PopulateCmdInfo([SUCCESS] + rest, errnos)
    ensures PopulateCmdInfo([SUCCESS] + rest, errnos)
         == Ok(Parsed(SUCCESS_MSG, TryParseData([SUCCESS] + rest), Success))
  {
    assert ([RESET_SUCCESS] + rest)[0 := SUCCESS] == [SUCCESS] + rest;
  }

  /** A status code the errno tables know, other than success, gives an
      error carrying the code and the message `"{symbol}-{description} [{code}]"`. */
  lemma ErrorReply(code: int, rest: seq<string>, errnos: ErrnoTable)
    requires code != 0 && code in errnos
    ensures PopulateCmdInfo([IntToString(code)] + rest, errnos)
         == Ok(Parsed(errnos[code].symbol + "-" + errnos[code].description + " [" + IntToString(code) + "]",
                      Int(code), Error))
  {
    ParseInt0OfIntToString(code);
    var t := IntToString(code);
    assert ParseInt0(SUCCESS) == Some(0);
    assert t != SUCCESS;
    assert t != RESET_SUCCESS by {
      if code < 0 {
        assert t[0] == '-';
      } else {
        assert IsDigit(t[0]);
      }
    }
  }

  /** A status code the errno tables do not know raises `KeyError`, which
      `_populate_cmd_info` does not catch. */
  lemma UnknownCodeRaises(code: int, rest: seq<string>, errnos: ErrnoTable)
    requires code != 0 && code !in errnos
    ensures PopulateCmdInfo([IntToString(code)] + rest, errnos) == Raised(KeyError)
  {
    ParseInt0OfIntToString(code);
    var t := IntToString(code);
    assert ParseInt0(SUCCESS) == Some(0);
    assert t != SUCCESS;
    assert t != RESET_SUCCESS by {
      if code < 0 {
        assert t[0] == '-';
      } else {
        assert IsDigit(t[0]);
      }
    }
  }

  /** A status token that is not an integer literal, printable and free of
      quotes and backslashes, is reported as an error whose data is the
      token. The message quotes the token when it has at most 198
      characters; a longer token's repr is cut at 200 characters, so the
      message ends with its first 199 characters and no closing quote. */
  lemma UnknownStatus(tok: string, rest: seq<string>, errnos: ErrnoTable)
    requires ParseInt0(tok).None? && Plain(tok)
    ensures |tok| <= 198 ==>
      PopulateCmdInfo([tok] + rest, errnos)
        == Ok(Parsed("Unknown Error " + INT0_ERROR + "'" + tok + "'", Str(tok), Error))
    ensures |tok| > 198 ==>
      PopulateCmdInfo([tok] + rest, errnos)
        == Ok(Parsed("Unknown Error " + INT0_ERROR + "'" + tok[..199], Str(tok), Error))
  {
    var data := [tok] + rest;
    assert data[0] == tok;
    assert ParseInt0(SUCCESS) == Some(0);
    assert !Plain(RESET_SUCCESS) by {
      assert !(' ' <= RESET_SUCCESS[0]);
    }
    assert PopulateCmdInfo(data, errnos) == Ok(Parsed(UnknownErrorMsg(tok), Str(tok), Error));
    PlainUnknownErrorMsg(tok);
  }

  lemma PlainUnknownErrorMsg(tok: string)
    requires Plain(tok)
    ensures |tok| <= 198 ==> UnknownErrorMsg(tok) == "Unknown Error " + INT0_ERROR + "'" + tok + "'"
    ensures |tok| > 198 ==> UnknownErrorMsg(tok) == "Unknown Error " + INT0_ERROR + "'" + tok[..199]
  {
    ReprPlain(tok);
    var q := "'" + tok + "'";
    if |tok| <= 198 {
      assert Truncate(Repr(tok), 200) == q;
      assert "Unknown Error " + INT0_ERROR + q == "Unknown Error " + INT0_ERROR + "'" + tok + "'";
    } else {
      assert Truncate(Repr(tok), 200) == q[..200];
      assert q[..200] == "'" + tok[..199];
      assert "Unknown Error " + INT0_ERROR + q[..200] == "Unknown Error " + INT0_ERROR + "'" + tok[..199];
    }
  }

  /** An integer sent back as at most ten decimal characters is read as that integer. */
  lemma ShortValueReply(n: int, rest: seq<string>)
    requires |IntToString(n)| <= 10
    ensures TryParseData([SUCCESS, IntToString(n)] + rest) == Int(n)
  {
    ParseInt0OfIntToString(n);
  }

  /** Bytes sent back as a `0x` hex string, most significant byte first and
      longer than ten characters, are read back least significant byte first. */
  lemma LongHexReply(bs: seq<byte>, rest: seq<string>)
    requires |bs| >= 5
    ensures TryParseData([SUCCESS, "0x" + HexEncode(Reverse(bs))] + rest) == Ints(bs)
  {
    var tok := "0x" + HexEncode(Reverse(bs));
    var data := [SUCCESS, tok] + rest;
    assert data[1] == tok && |tok| > 10;
    assert tok[..2] == "0x" && tok[2..] == HexEncode(Reverse(bs));
    FromHexEncode(Reverse(bs));
    ReverseReverse(bs);
    HexTokenData(data, Reverse(bs));
  }

  lemma HexTokenData(data: seq<string>, bs: seq<byte>)
    requires |data| > 1 && |data[1]| > 10 && StartsWith(data[1], "0x")
    requires FromHex(data[1][2..]) == Some(bs)
    ensures TryParseData(data) == Ints(Reverse(bs))
  {
  }

  /** The command `write_bytes` sends for an integer splits back, on spaces,
      into the opcode, the address and `size` decimal byte tokens, least
      significant first; reading the tokens back and reassembling them
      little-endian gives the integer modulo `256**size`. */
  lemma WriteIntOnWire(index: string, n: int, size: nat)
    requires ' ' !in index
    ensures WriteCmd(index, WInt(n), size).Ok?
    ensures var tokens := Split(WriteCmd(index, WInt(n), size).value, " ");
      && |tokens| == size + 2
      && tokens[..2] == [WRITE_REG_CMD, index]
      && (forall i :: 0 <= i < size ==> ParseInt0(tokens[i + 2]) == Some(WireBytes(n, size)[i]))
      && LittleEndian(WireBytes(n, size)) == n % Pow2(8 * size)
  {
    var bytes := WireBytes(n, size);
    var ps := [WRITE_REG_CMD, index] + Texts(bytes);
    forall k | 0 <= k < |ps|
      ensures ' ' !in ps[k]
    {
      if k >= 2 {
        IntToStringNoSpace(bytes[k - 2]);
      }
    }
    SplitJoin(ps, " ");
    forall i | 0 <= i < size
      ensures ParseInt0(ps[i + 2]) == Some(bytes[i])
    {
      ParseInt0OfIntToString(bytes[i]);
    }
    WireBytesLittleEndian(n, size);
  }

  /** A list is sent last element first, one token per element: split on
      spaces, the command gives back the opcode, the address and the
      elements' texts in reverse order. */
  lemma WriteListOnWire(index: string, xs: seq<Atom>, size: int)
    requires ' ' !in index && xs != [] && !(xs[0].AStr? && StartsWith(xs[0].s, "0x"))
    requires forall i :: 0 <= i < |xs| ==> ' ' !in AtomText(xs[i])
    ensures WriteCmd(index, WList(xs), size).Ok?
    ensures Split(WriteCmd(index, WList(xs), size).value, " ") == [WRITE_REG_CMD, index] + Reverse(AtomTexts(xs))
  {
    var items := AtomTexts(xs);
    assert ListItems(xs) == Ok(items);
    var ps := [WRITE_REG_CMD, index] + Reverse(items);
    assert WriteCmd(index, WList(xs), size) == Ok(Join(ps, " "));
    forall k | 0 <= k < |ps|
      ensures ' ' !in ps[k]
    {
      if k >= 2 {
        assert ps[k] == items[|items| - 1 - (k - 2)];
      }
    }
    SplitJoin(ps, " ");
  }

  /** A list headed by a `0x` string is sent as the bytes that string spells,
      last byte first, each as a decimal token; the rest of the list is
      ignored. */
  lemma WriteHexListOnWire(index: string, bs: seq<byte>, rest: seq<Atom>, size: int)
    requires ' ' !in index
    ensures WriteCmd(index, WList([AStr("0x" + HexEncode(bs))] + rest), size).Ok?
    ensures Split(WriteCmd(index, WList([AStr("0x" + HexEncode(bs))] + rest), size).value, " ")
         == [WRITE_REG_CMD, index] + Texts(Reverse(bs))
  {
    var xs := [AStr("0x" + HexEncode(bs))] + rest;
    HexListItems(bs, rest);
    ReverseTexts(bs);
    var ps := [WRITE_REG_CMD, index] + Texts(Reverse(bs));
    assert WriteTokens(WList(xs), size) == Ok(Texts(Reverse(bs)));
    assert WriteCmd(index, WList(xs), size) == Ok(Join(ps, " "));
    TextsNoSpace(Reverse(bs));
    assert forall k :: 0 <= k < |ps| ==> ' ' !in ps[k];
    SplitJoin(ps, " ");
  }

  lemma ReverseTexts(bs: seq<byte>)
    ensures Reverse(Texts(bs)) == Texts(Reverse(bs))
  {
  }

  lemma TextsNoSpace(xs: seq<int>)
    ensures forall k :: 0 <= k < |xs| ==> ' ' !in Texts(xs)[k]
  {
    forall k | 0 <= k < |xs|
      ensures ' ' !in Texts(xs)[k]
    {
      IntToStringNoSpace(xs[k]);
    }
  }

  lemma HexListItems(bs: seq<byte>, rest: seq<Atom>)
    ensures ListItems([AStr("0x" + HexEncode(bs))] + rest) == Ok(Texts(bs))
  {
    var h := HexEncode(bs);
    var s := "0x" + h;
    assert StartsWith(s, "0x") && s[|"0x"|..] == h;
    HexEncodeNoPrefix(bs);
    RemoveAbsent(h, "0x");
    assert RemoveAll(s, "0x") == h;
    FromHexEncode(bs);
  }

  /** `write_bits` followed by `read_bits` on a device that stores the bytes
      it is sent: the field reads back as `v mod 2**w`, and the bits of the
      covering bytes below and above the field are those that were read. */
  lemma WriteBitsReadBack(x: int, offset: nat, width: nat, v: int)
    ensures var span := Span(width, offset);
      var stored := LittleEndian(WireBytes(Splice(x, offset, width, v), span));
      var before := LittleEndian(WireBytes(x, span));
      && Bits(stored, offset, width) == v % Pow2(width)
      && stored % Pow2(offset) == before % Pow2(offset)
      && stored / Pow2(offset + width) == before / Pow2(offset + width)
  {
    var span := Span(width, offset);
    var k := 8 * span;
    var y := Splice(x, offset, width, v);
    var stored := LittleEndian(WireBytes(y, span));
    var before := LittleEndian(WireBytes(x, span));
    assert stored == y % Pow2(k) by { WireBytesLittleEndian(y, span); }
    assert before == x % Pow2(k) by { WireBytesLittleEndian(x, span); }
    SpliceSpec(x, offset, width, v);
    assert Bits(stored, offset, width) == Bits(y, offset, width) by {
      BitsOfLowPart(y, offset, width, k);
    }
    assert stored % Pow2(offset) == y % Pow2(offset) && before % Pow2(offset) == x % Pow2(offset) by {
      Pow2Add(offset, k - offset);
      ModProduct(y, Pow2(offset), Pow2(k - offset));
      ModProduct(x, Pow2(offset), Pow2(k - offset));
    }
    HighOfLowPart(y, offset + width, k);
    HighOfLowPart(x, offset + width, k);
  }
}
