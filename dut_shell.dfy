/** The device-under-test shell: two parsers over the lines a device sends
    back after a command. `ShellParser` reads a human-readable transcript
    (`Command: `, `Success: `, `Error: ` markers); `JSONParser` merges JSON
    records until one carries a `result`. `DutShell` picks one of them. */
module DutShell {
  import opened Py
  import opened Transport
  import opened LLShell

  // ---------------------------------------------------------------------
  // The transcript parser

  const COMMAND := "Command: "
  const SUCCESS_MARK := "Success: "
  const ERROR_MARK := "Error: "

  /** The dictionary `send_and_parse_cmd` returns: `msg` is absent until a
      marker line sets it, `data` is `None` unless a success line parsed. */
  datatype ShellInfo = ShellInfo(cmd: string, msg: Option<string>, data: Option<seq<Atom>>, result: Kind)

  /** One list element: `int(v, 0)`, or the text itself on `ValueError`. */
  function ParseAtom(v: string): (a: Atom)
    ensures ParseInt0(v).Some? ==> a == AInt(ParseInt0(v).value)
    ensures ParseInt0(v).None? ==> a == AStr(v)
  {
    match ParseInt0(v)
    case Some(n) => AInt(n)
    case None => AStr(v)
  }

  /** Parsing an atom's text gives the atom back: every integer, and every
      text that is not an integer literal. */
  lemma ParseAtomText(a: Atom)
    requires a.AStr? ==> ParseInt0(a.s).None?
    ensures ParseAtom(AtomText(a)) == a
  {
    if a.AInt? {
      ParseInt0OfIntToString(a.i);
    }
  }

  /** The text between the first `[` and the first `]`, split on `", "`. */
  function BracketItems(text: string): seq<string>
    requires '[' in text && ']' in text
  {
    var a := Find(text, '[') + 1;
    var b := Find(text, ']');
    Split(Slice(text, a, b), ", ")
  }

  /** `ShellParser._try_parse_data`: `None` unless the text holds both
      brackets; otherwise every bracketed element, in order, as a number
      where `int(v, 0)` accepts it. */
  function BracketData(text: string): (r: Option<seq<Atom>>)
    ensures r.None? <==> '[' !in text || ']' !in text
  {
    if '[' in text && ']' in text then
      var items := BracketItems(text);
      Some(seq(|items|, i requires 0 <= i < |items| => ParseAtom(items[i])))
    else None
  }

  /** The loop of `_try_parse_data`. */
  method TryParseData(text: string) returns (r: Option<seq<Atom>>)
    ensures r == BracketData(text)
  {
    if '[' !in text || ']' !in text {
      return None;
    }
    var items := BracketItems(text);
    var parsed: seq<Atom> := [];
    for i := 0 to |items|
      invariant |parsed| == i && forall k :: 0 <= k < i ==> parsed[k] == ParseAtom(items[k])
    {
      var value := items[i];
      match ParseInt0(value)
      case Some(n) =>
        parsed := parsed + [AInt(n)];
      case None =>
        parsed := parsed + [AStr(value)];
    }
    assert parsed == seq(|items|, i requires 0 <= i < |items| => ParseAtom(items[i]));
    r := Some(parsed);
  }

  /** The text between the first `[` and the first `]` of a line framed
      as `before + "[" + body + "]" + after`, split on `", "`. */
  lemma BracketFrame(before: string, body: string, after: string)
    requires '[' !in before && ']' !in before && ']' !in body
    ensures var text := before + "[" + body + "]" + after;
      '[' in text && ']' in text && BracketItems(text) == Split(body, ", ")
  {
    var text := before + "[" + body + "]" + after;
    var open := |before|;
    var close := |before| + 1 + |body|;
    assert text[open] == '[' && text[..open] == before;
    FindFirst(text, '[', open);
    assert text[close] == ']';
    assert text[..close] == before + "[" + body;
    FindFirst(text, ']', close);
    assert Slice(text, open + 1, close) == body;
  }

  /** The printed list body of some integers splits back into their texts,
      and holds no `]`. */
  lemma IntListBody(xs: seq<int>)
    requires |xs| >= 1
    ensures ']' !in Join(Texts(xs), ", ")
    ensures Split(Join(Texts(xs), ", "), ", ") == Texts(xs)
  {
    var ps := Texts(xs);
    forall k | 0 <= k < |ps|
      ensures ',' !in ps[k] && ']' !in ps[k]
    {
      IntToStringNoSpace(xs[k]);
    }
    JoinHasNo(ps, ", ", ']');
    SplitJoin(ps, ", ");
  }

  lemma AtomsOfTexts(xs: seq<int>)
    ensures var ps := Texts(xs);
      seq(|ps|, i requires 0 <= i < |ps| => ParseAtom(ps[i])) == seq(|xs|, i requires 0 <= i < |xs| => AInt(xs[i]))
  {
    var ps := Texts(xs);
    forall i | 0 <= i < |xs|
      ensures ParseAtom(ps[i]) == AInt(xs[i])
    {
      ParseInt0OfIntToString(xs[i]);
    }
  }

  /** A list of integers printed as `[a, b, c]` after text without
      brackets is read back as exactly those integers, in order. */
  lemma BracketRoundTrip(before: string, xs: seq<int>, after: string)
    requires |xs| >= 1
    requires '[' !in before && ']' !in before
    ensures BracketData(before + "[" + Join(Texts(xs), ", ") + "]" + after)
         == Some(seq(|xs|, i requires 0 <= i < |xs| => AInt(xs[i])))
  {
    var body := Join(Texts(xs), ", ");
    IntListBody(xs);
    BracketFrame(before, body, after);
    AtomsOfTexts(xs);
  }

  /** An empty list, `[]`, is read as one empty text element: `''.split(', ')`
      is `['']` and `int('', 0)` fails. */
  lemma EmptyBrackets()
    ensures BracketData("[]") == Some([AStr("")])
  {
    assert Find("[]", '[') == 0 && Find("[]", ']') == 1;
    assert Slice("[]", 1, 1) == "";
    assert "" + "" == "";
    assert Split("", ", ") == [""];
    assert ParseInt0("") == None;
    assert BracketItems("[]") == [""];
    assert seq(1, i requires 0 <= i < 1 => ParseAtom([""][i])) == [AStr("")];
  }

  /** A `Command: ` line sets `msg` to the line with every marker removed
      and `cmd` to that text without newlines. */
  function CommandLine(info: ShellInfo, line: string): ShellInfo {
    if Contains(line, COMMAND) then
      var m := RemoveAll(line, COMMAND);
      info.(msg := Some(m), cmd := RemoveAll(m, "\n"))
    else info
  }

  function Succeeded(info: ShellInfo, line: string): ShellInfo {
    var m := RemoveAll(RemoveAll(line, SUCCESS_MARK), "\n");
    info.(msg := Some(m), result := Success, data := BracketData(m))
  }

  function Failed(info: ShellInfo, line: string): ShellInfo {
    var m := RemoveAll(RemoveAll(line, ERROR_MARK), "\n");
    info.(msg := Some(m), result := Error)
  }

  predicate Terminal(line: string) {
    Contains(line, SUCCESS_MARK) || Contains(line, ERROR_MARK)
  }

  /** The transcript scan: the parse after the lines in `inbox`, and the
      lines left unread. The first success or error line ends it; an empty
      read is a timeout. */
  function Scan(info: ShellInfo, inbox: seq<string>): (r: (ShellInfo, seq<string>))
    decreases |inbox|
  {
    if inbox == [] then (info.(result := Timeout), [])
    else if inbox[0] == "" then (info.(result := Timeout), inbox[1..])
    else
      var line := inbox[0];
      var i1 := CommandLine(info, line);
      if Contains(line, SUCCESS_MARK) then (Succeeded(i1, line), inbox[1..])
      else if Contains(line, ERROR_MARK) then (Failed(i1, line), inbox[1..])
      else Scan(i1, inbox[1..])
  }

  /** `ShellParser.send_and_parse_cmd`. */
  method ShellSendAndParse(link: Link, cmd: string) returns (info: ShellInfo, link': Link)
    ensures link'.sent == link.sent + [cmd]
    ensures (info, link'.inbox) == Scan(ShellInfo(cmd, None, None, Timeout), link.inbox)
  {
    link' := link.Write(cmd);
    var read := link'.Read();
    var response := read.0;
    link' := read.1;
    info := ShellInfo(cmd, None, None, Timeout);
    if link.inbox != [] {
      assert link.inbox == [response] + link'.inbox;
    }
    while response != ""
      invariant link'.sent == link.sent + [cmd]
      invariant Scan(ShellInfo(cmd, None, None, Timeout), link.inbox) == Scan(info, [response] + link'.inbox)
      decreases |link'.inbox| + (if response == "" then 0 else 1)
    {
      assert ([response] + link'.inbox)[1..] == link'.inbox;
      if Contains(response, COMMAND) {
        var m := RemoveAll(response, COMMAND);
        info := info.(msg := Some(m), cmd := RemoveAll(m, "\n"));
      }
      if Contains(response, SUCCESS_MARK) {
        var cleanMsg := RemoveAll(response, SUCCESS_MARK);
        var m := RemoveAll(cleanMsg, "\n");
        var data := TryParseData(m);
        info := info.(msg := Some(m), result := Success, data := data);
        break;
      }
      if Contains(response, ERROR_MARK) {
        var cleanMsg := RemoveAll(response, ERROR_MARK);
        info := info.(msg := Some(RemoveAll(cleanMsg, "\n")), result := Error);
        break;
      }
      var next := link'.Read();
      if link'.inbox != [] {
        assert link'.inbox == [next.0] + next.1.inbox;
      }
      response := next.0;
      link' := next.1;
    }
    if response == "" {
      info := info.(result := Timeout);
    }
  }

  /** The `Command: ` lines applied in order. */
  function Commands(info: ShellInfo, lines: seq<string>): ShellInfo
    decreases |lines|
  {
    if lines == [] then info else Commands(CommandLine(info, lines[0]), lines[1..])
  }

  /** Scanning stops at the first success or error line: what follows it is
      left unread, the result is that line's, `msg` is that line without its
      marker and newlines, and `cmd` comes from the last `Command: ` line
      before it (or the line itself). */
  lemma {:induction false} ScanStopsAtFirst(info: ShellInfo, before: seq<string>, line: string, after: seq<string>)
    requires forall k :: 0 <= k < |before| ==> before[k] != "" && !Terminal(before[k])
    requires Terminal(line)
    ensures var r := Scan(info, before + [line] + after);
      var i1 := CommandLine(Commands(info, before), line);
      && r.1 == after
      && (Contains(line, SUCCESS_MARK) ==> r.0 == Succeeded(i1, line))
      && (!Contains(line, SUCCESS_MARK) ==> r.0 == Failed(i1, line))
    decreases |before|
  {
    if before == [] {
      assert [] + [line] + after == [line] + after;
      assert line != "" by { assert Contains(line, SUCCESS_MARK) || Contains(line, ERROR_MARK); }
    } else {
      ScanStopsAtFirst(CommandLine(info, before[0]), before[1..], line, after);
      assert (before + [line] + after)[1..] == before[1..] + [line] + after;
    }
  }

  /** A transcript with no success or error line and no empty line is read
      to the end and times out; `data` stays `None`. */
  lemma {:induction false} ScanTimeout(info: ShellInfo, lines: seq<string>)
    requires forall k :: 0 <= k < |lines| ==> lines[k] != "" && !Terminal(lines[k])
    ensures Scan(info, lines) == (Commands(info, lines).(result := Timeout), [])
    ensures Commands(info, lines).data == info.data
    decreases |lines|
  {
    if lines != [] {
      ScanTimeout(CommandLine(info, lines[0]), lines[1..]);
    }
  }

  /** Only a success line sets `data`, and then to the parse of `msg`. */
  lemma {:induction false} ScanData(info: ShellInfo, inbox: seq<string>)
    ensures var r := Scan(info, inbox).0;
      && (r.result == Success ==> r.msg.Some? && r.data == BracketData(r.msg.value))
      && (r.result != Success ==> r.data == info.data)
    decreases |inbox|
  {
    if inbox != [] && inbox[0] != "" && !Terminal(inbox[0]) {
      ScanData(CommandLine(info, inbox[0]), inbox[1..]);
    }
  }

  // ---------------------------------------------------------------------
  // The JSON parser

  datatype Json =
    | JNull
    | JBool(b: bool)
    | JNum(n: int)
    | JStr(s: string)
    | JArr(items: seq<Json>)
    | JObj(fields: seq<(string, Json)>)

  /** A Python dictionary with string keys; its key order is not kept. */
  type Record = map<string, Json>

  /** The value a decoded object gives `k`: a repeated key keeps its last
      value, as `json.loads` does. */
  function LastValue(fields: seq<(string, Json)>, k: string): Option<Json>
    decreases |fields|
  {
    if fields == [] then None
    else if fields[|fields| - 1].0 == k then Some(fields[|fields| - 1].1)
    else LastValue(fields[..|fields| - 1], k)
  }

  /** `rec.update(fields)`: the pairs stored in order. */
  function Update(rec: Record, fields: seq<(string, Json)>): Record
    decreases |fields|
  {
    if fields == [] then rec
    else
      var last := fields[|fields| - 1];
      Update(rec, fields[..|fields| - 1])[last.0 := last.1]
  }

  /** Later keys override earlier ones: after `rec.update(fields)`, a key of
      `fields` holds its last value there, every other key what it held. */
  lemma {:induction false} UpdateLookup(rec: Record, fields: seq<(string, Json)>, k: string)
    ensures LastValue(fields, k).Some? ==> k in Update(rec, fields) && Update(rec, fields)[k] == LastValue(fields, k).value
    ensures LastValue(fields, k).None? ==> (k in Update(rec, fields) <==> k in rec)
    ensures LastValue(fields, k).None? && k in rec ==> Update(rec, fields)[k] == rec[k]
    decreases |fields|
  {
    if fields != [] {
      UpdateLookup(rec, fields[..|fields| - 1], k);
    }
  }

  /** The keys of a decoded object, each once, in the order they first
      appear; iterating the object gives them in this order. */
  function Keys(fields: seq<(string, Json)>): (r: seq<string>)
    ensures Distinct(r)
    ensures forall k :: k in r <==> exists i :: 0 <= i < |fields| && fields[i].0 == k
  {
    var names := seq(|fields|, i requires 0 <= i < |fields| => fields[i].0);
    assert forall k :: k in names <==> exists i :: 0 <= i < |fields| && fields[i].0 == k by {
      forall k | k in names ensures exists i :: 0 <= i < |fields| && fields[i].0 == k {
        var i :| 0 <= i < |names| && names[i] == k;
        assert fields[i].0 == k;
      }
      forall k, i | 0 <= i < |fields| && fields[i].0 == k ensures k in names {
        assert names[i] == k;
      }
    }
    Dedup(names)
  }

  /** The key-value pair `dict.update` takes from one element of a list: the
      element is iterated and must give exactly two things. A string gives
      its characters, a list its items, an object its keys; a key that is a
      list or an object is unhashable. */
  function AsPair(item: Json): (r: Outcome<(string, Json)>)
    ensures r.Raised? ==> r.exc == TypeError || r.exc == ValueError
  {
    match item
    case JStr(s) => if |s| == 2 then Ok(([s[0]], JStr([s[1]]))) else Raised(ValueError)
    case JArr(xs) =>
      if |xs| != 2 then Raised(ValueError)
      else if xs[0].JStr? then Ok((xs[0].s, xs[1]))
      else Raised(TypeError)
    case JObj(fields) =>
      var ks := Keys(fields);
      if |ks| == 2 then Ok((ks[0], JStr(ks[1]))) else Raised(ValueError)
    case _ => Raised(TypeError)
  }

  /** `rec.update(items)` for a list: its elements taken as pairs, in order;
      the first element that is not a pair raises. */
  function UpdatePairs(rec: Record, items: seq<Json>): Outcome<Record>
    decreases |items|
  {
    if items == [] then Ok(rec)
    else
      var rec' :- UpdatePairs(rec, items[..|items| - 1]);
      var p :- AsPair(items[|items| - 1]);
      Ok(rec'[p.0 := p.1])
  }

  /** `rec.update(v)` for any decoded value: an object merges its fields; a
      string is iterated character by character, so only the empty string
      is accepted; a list is a list of pairs; a number, a boolean or `null`
      is not iterable. */
  function UpdateFrom(rec: Record, v: Json): (r: Outcome<Record>)
    ensures v.JObj? ==> r == Ok(Update(rec, v.fields))
    ensures v.JStr? ==> (r.Ok? <==> v.s == "") && (r.Ok? ==> r.value == rec)
    ensures v.JNull? || v.JBool? || v.JNum? ==> r == Raised(TypeError)
    ensures r.Raised? ==> r.exc == TypeError || r.exc == ValueError
  {
    match v
    case JObj(fields) => Ok(Update(rec, fields))
    case JStr(s) => if s == "" then Ok(rec) else Raised(ValueError)
    case JArr(items) =>
      UpdatePairsRaises(rec, items);
      UpdatePairs(rec, items)
    case _ => Raised(TypeError)
  }

  /** A list raises exactly when one of its elements is not a pair, and then
      with that element's exception, for the first such element. */
  lemma {:induction false} UpdatePairsRaises(rec: Record, items: seq<Json>)
    ensures UpdatePairs(rec, items).Raised? <==> exists i :: 0 <= i < |items| && AsPair(items[i]).Raised?
    ensures UpdatePairs(rec, items).Raised? ==>
      exists i :: 0 <= i < |items| && AsPair(items[i]) == Raised(UpdatePairs(rec, items).exc)
                  && forall j :: 0 <= j < i ==> AsPair(items[j]).Ok?
    decreases |items|
  {
    if items != [] {
      var n := |items| - 1;
      var front := items[..n];
      UpdatePairsRaises(rec, front);
      assert forall i :: 0 <= i < n ==> front[i] == items[i];
      if UpdatePairs(rec, front).Raised? {
        var i :| 0 <= i < n && AsPair(front[i]) == Raised(UpdatePairs(rec, front).exc)
                 && forall j :: 0 <= j < i ==> AsPair(front[j]).Ok?;
        assert AsPair(items[i]) == Raised(UpdatePairs(rec, items).exc);
      } else if AsPair(items[n]).Raised? {
        assert forall j :: 0 <= j < n ==> AsPair(items[j]).Ok? by {
          forall j | 0 <= j < n ensures AsPair(items[j]).Ok? {
            assert AsPair(front[j]).Ok?;
          }
        }
      } else {
        assert forall i :: 0 <= i < |items| ==> AsPair(items[i]).Ok? by {
          forall i | 0 <= i < |items| ensures AsPair(items[i]).Ok? {
            if i < n {
              assert AsPair(front[i]).Ok?;
            }
          }
        }
      }
    }
  }

  /** The fields of an object written as a list of `[key, value]` lists. */
  function PairList(fields: seq<(string, Json)>): (r: seq<Json>)
    ensures |r| == |fields|
    ensures forall i :: 0 <= i < |fields| ==> r[i] == JArr([JStr(fields[i].0), fields[i].1])
  {
    seq(|fields|, i requires 0 <= i < |fields| => JArr([JStr(fields[i].0), fields[i].1]))
  }

  /** Updating with a list of `[key, value]` pairs stores the same record as
      updating with the object that has those fields. */
  lemma {:induction false} PairsUpdate(rec: Record, fields: seq<(string, Json)>)
    ensures UpdateFrom(rec, JArr(PairList(fields))) == UpdateFrom(rec, JObj(fields))
    decreases |fields|
  {
    if fields != [] {
      var n := |fields| - 1;
      PairsUpdate(rec, fields[..n]);
      assert PairList(fields)[..n] == PairList(fields[..n]);
      assert AsPair(PairList(fields)[n]) == Ok(fields[n]);
    }
  }

  /** What the abstract `json.loads` gives for a line: a value, or `None`
      for `JSONDecodeError`. */
  type Decoder = string -> Option<Json>

  /** One line into the accumulator: a decoded value goes to `dict.update`;
      an undecodable line is appended to the `msg` list, created empty when
      absent; a `msg` that is not a list has no `append`. */
  function Absorb(acc: Record, line: string, decode: Decoder): (r: Outcome<Record>)
    ensures decode(line).Some? ==> r == UpdateFrom(acc, decode(line).value)
    ensures decode(line).None? ==> (r.Ok? <==> "msg" !in acc || acc["msg"].JArr?)
    ensures decode(line).None? && r.Ok? ==>
      var before := if "msg" in acc then acc["msg"].items else [];
      && "msg" in r.value && r.value["msg"] == JArr(before + [JStr(line)])
      && forall k :: k != "msg" ==> (k in r.value <==> k in acc) && (k in acc ==> r.value[k] == acc[k])
    ensures r.Raised? ==> r.exc == TypeError || r.exc == ValueError || r.exc == AttributeError
  {
    match decode(line)
    case Some(v) => UpdateFrom(acc, v)
    case None =>
      if "msg" !in acc then Ok(acc["msg" := JArr([JStr(line)])])
      else
        match acc["msg"]
        case JArr(items) => Ok(acc["msg" := JArr(items + [JStr(line)])])
        case _ => Raised(AttributeError)
  }

  /** `_send_cmd` after the write: lines are absorbed until the accumulator
      holds `result`; a read past the last line is a `TimeoutError`, which
      sets `result` to `"Timeout"`. Also gives the lines left unread. */
  function Collect(acc: Record, inbox: seq<string>, decode: Decoder): (r: (Outcome<Record>, seq<string>))
    decreases |inbox|
  {
    if "result" in acc then (Ok(acc), inbox)
    else if inbox == [] then (Ok(acc["result" := JStr("Timeout")]), [])
    else
      match Absorb(acc, inbox[0], decode)
      case Raised(e) => (Raised(e), inbox[1..])
      case Ok(acc') => Collect(acc', inbox[1..], decode)
  }

  /** `JSONParser._send_cmd`. */
  method JsonSendCmd(link: Link, cmd: string, decode: Decoder) returns (r: Outcome<Record>, link': Link)
    ensures link'.sent == link.sent + [cmd]
    ensures (r, link'.inbox) == Collect(map[], link.inbox, decode)
  {
    link' := link.Write(cmd);
    var cmdInfo: Record := map[];
    while "result" !in cmdInfo
      invariant link'.sent == link.sent + [cmd]
      invariant Collect(map[], link.inbox, decode) == Collect(cmdInfo, link'.inbox, decode)
      decreases |link'.inbox| + (if "result" in cmdInfo then 0 else 1)
    {
      if link'.inbox == [] {
        // the read raises `TimeoutError`
        cmdInfo := cmdInfo["result" := JStr("Timeout")];
      } else {
        var read := link'.Read();
        var line := read.0;
        link' := read.1;
        match decode(line)
        case Some(v) =>
          var updated := UpdateFrom(cmdInfo, v);
          if updated.Raised? {
            return Raised(updated.exc), link';
          }
          cmdInfo := updated.value;
        case None =>
          if "msg" !in cmdInfo {
            cmdInfo := cmdInfo["msg" := JArr([JStr(line)])];
          } else {
            match cmdInfo["msg"]
            case JArr(items) =>
              cmdInfo := cmdInfo["msg" := JArr(items + [JStr(line)])];
            case _ =>
              return Raised(AttributeError), link';
          }
      }
    }
    r := Ok(cmdInfo);
  }

  /** `JSONParser.send_and_parse_cmd`: `{'cmd': sent}` updated by the
      accumulated record. */
  method JsonSendAndParse(link: Link, cmd: string, decode: Decoder) returns (r: Outcome<Record>, link': Link)
    ensures link'.sent == link.sent + [cmd]
    ensures var c := Collect(map[], link.inbox, decode);
      && link'.inbox == c.1
      && (c.0.Raised? ==> r == Raised(c.0.exc))
      && (c.0.Ok? ==> r == Ok(map["cmd" := JStr(cmd)] + c.0.value))
  {
    var info;
    info, link' := JsonSendCmd(link, cmd, decode);
    match info
    case Raised(e) => r := Raised(e);
    case Ok(rec) => r := Ok(map["cmd" := JStr(cmd)] + rec);
  }

  /** Every successful collection holds a `result`, and the collection
      raises only when `dict.update` rejects a decoded value (`TypeError`,
      `ValueError`) or `msg` is not a list (`AttributeError`). */
  lemma {:induction false} CollectHasResult(acc: Record, inbox: seq<string>, decode: Decoder)
    ensures var r := Collect(acc, inbox, decode).0;
      && (r.Ok? ==> "result" in r.value)
      && (r.Raised? ==> r.exc == TypeError || r.exc == ValueError || r.exc == AttributeError)
    decreases |inbox|
  {
    if "result" !in acc && inbox != [] && Absorb(acc, inbox[0], decode).Ok? {
      CollectHasResult(Absorb(acc, inbox[0], decode).value, inbox[1..], decode);
    }
  }

  /** The parse starts from the sent command, so a `cmd` the device reports
      replaces it. */
  lemma JsonReplyCmd(cmd: string, rec: Record)
    ensures var reply := map["cmd" := JStr(cmd)] + rec;
      && reply["cmd"] == (if "cmd" in rec then rec["cmd"] else JStr(cmd))
      && (forall k :: k in rec ==> k in reply && reply[k] == rec[k])
  {
  }

  /** Lines that do not decode are kept, in arrival order, in `msg`; a
      transcript of nothing else times out. */
  lemma {:induction false} UndecodableLines(items: seq<Json>, lines: seq<string>, decode: Decoder)
    requires forall k :: 0 <= k < |lines| ==> decode(lines[k]).None?
    ensures Collect(map["msg" := JArr(items)], lines, decode)
         == (Ok(map["msg" := JArr(items + seq(|lines|, i requires 0 <= i < |lines| => JStr(lines[i]))),
                    "result" := JStr("Timeout")]), [])
    decreases |lines|
  {
    var acc: Record := map["msg" := JArr(items)];
    if lines == [] {
      assert items + [] == items;
    } else {
      assert acc["msg" := JArr(items + [JStr(lines[0])])] == map["msg" := JArr(items + [JStr(lines[0])])];
      assert Absorb(acc, lines[0], decode) == Ok(map["msg" := JArr(items + [JStr(lines[0])])]);
      UndecodableLines(items + [JStr(lines[0])], lines[1..], decode);
      var tail := seq(|lines| - 1, i requires 0 <= i < |lines| - 1 => JStr(lines[1..][i]));
      assert [JStr(lines[0])] + tail == seq(|lines|, i requires 0 <= i < |lines| => JStr(lines[i]));
      assert items + [JStr(lines[0])] + tail == items + ([JStr(lines[0])] + tail);
    }
  }

  // ---------------------------------------------------------------------
  // Parser selection

  datatype ParserKind = ShellParserKind | JsonParserKind

  /** The `parser` keyword of `DutShell`: `shell` by default. */
  function SelectParser(parser: Option<string>): (r: Outcome<ParserKind>)
    ensures r == Ok(ShellParserKind) <==> parser.None? || parser == Some("shell")
    ensures r == Ok(JsonParserKind) <==> parser == Some("json")
    ensures r.Raised? ==> r.exc == NotImplementedError
  {
    match parser
    case None => Ok(ShellParserKind)
    case Some(p) =>
      if p == "shell" then Ok(ShellParserKind)
      else if p == "json" then Ok(JsonParserKind)
      else Raised(NotImplementedError)
  }

  /** What `DutShell.send_cmd` returns, by parser. */
  datatype Reply = ShellReply(info: ShellInfo) | JsonReply(record: Outcome<Record>)

  /** A `DutShell`: the chosen parser over one device link. */
  class Dut {
    var parser: ParserKind
    var link: Link

    constructor(parser: ParserKind, link: Link)
      ensures this.parser == parser && this.link == link
    {
      this.parser := parser;
      this.link := link;
    }

    /** `send_cmd`: hand the command to the chosen parser. */
    method SendCmd(cmd: string, decode: Decoder) returns (r: Reply)
      modifies this
      ensures parser == old(parser)
      ensures link.sent == old(link.sent) + [cmd]
      ensures old(parser) == ShellParserKind ==>
        r.ShellReply? && (r.info, link.inbox) == Scan(ShellInfo(cmd, None, None, Timeout), old(link.inbox))
      ensures old(parser) == JsonParserKind ==>
        var c := Collect(map[], old(link.inbox), decode);
        && r.JsonReply? && link.inbox == c.1
        && (c.0.Raised? ==> r.record == Raised(c.0.exc))
        && (c.0.Ok? ==> r.record == Ok(map["cmd" := JStr(cmd)] + c.0.value))
    {
      match parser
      case ShellParserKind =>
        var info, l := ShellSendAndParse(link, cmd);
        link := l;
        r := ShellReply(info);
      case JsonParserKind =>
        var rec, l := JsonSendAndParse(link, cmd, decode);
        link := l;
        r := JsonReply(rec);
    }
  }

  /** `DutShell(..., parser=...)`: an unknown parser name raises
      `NotImplementedError` and no shell is made. */
  method NewDut(parser: Option<string>, link: Link) returns (r: Outcome<Dut>)
    ensures r.Raised? <==> SelectParser(parser).Raised?
    ensures r.Ok? ==> fresh(r.value) && r.value.parser == SelectParser(parser).value && r.value.link == link
  {
    match SelectParser(parser)
    case Raised(e) => r := Raised(e);
    case Ok(kind) =>
      var d := new Dut(kind, link);
      r := Ok(d);
  }
}
