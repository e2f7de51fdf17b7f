/** Splitting a message into header fields and body without losing a byte
    (internal/mailparser/message.go; section 2.2 of RFC 5322). */
module HeaderSection {
  import opened Bytes

  /** value is the unfolded field body; raw holds the exact bytes of the field. */
  datatype Header = Header(name: Bytes, value: Bytes, raw: Bytes)

  datatype Limits = Limits(maxMessageBytes: nat, maxHeaderBytes: nat, maxHeaders: nat)

  const DEFAULT_LIMITS := Limits(52428800, 524288, 1000)

  datatype LimitError = MessageSize | HeaderSize | HeaderCount

  // ---------------------------------------------------------------- lines

  /** The length of the first line of s, its terminator included. */
  function LineLength(s: Bytes): (n: nat)
    ensures n <= |s| && (s != [] ==> n > 0)
  {
    var i := IndexOf(s, LF);
    if i < 0 then |s| else i + 1
  }

  /** A line without its terminator. */
  function TrimEol(line: Bytes): Bytes {
    Chomp(if line != [] && line[|line| - 1] == LF then line[..|line| - 1] else line)
  }

  predicate ValidFieldName(name: Bytes) {
    forall i :: 0 <= i < |name| ==> 33 <= name[i] <= 126
  }

  /** The field name a line starts, or [] when it does not start a field. */
  function FieldName(content: Bytes): Bytes {
    var colon := IndexOf(content, COLON);
    if colon <= 0 then []
    else
      var name := TrimRightWsp(content[..colon]);
      if ValidFieldName(name) then name else []
  }

  /** The field body of raw: line breaks removed, white space trimmed at both ends. */
  function FieldValue(raw: Bytes): Bytes {
    TrimRightWsp(TrimLeftWsp(Unfolded(raw[IndexOf(raw, COLON) + 1..])))
  }

  // ---------------------------------------------------------------- the header section

  /** A field being collected: its name and the bytes seen so far. */
  datatype Current = NoField | Field(name: Bytes, raw: Bytes)

  datatype Section = Failed(error: LimitError) | Section(headers: seq<Header>, size: nat, body: Bytes)

  function Flush(cur: Current): seq<Header> {
    match cur
    case NoField => []
    case Field(name, raw) => [Header(name, FieldValue(raw), raw)]
  }

  function Extend(cur: Current, line: Bytes): Current {
    match cur
    case NoField => NoField
    case Field(name, raw) => Field(name, raw + line)
  }

  /** What a line is in a header section. */
  datatype Line = Blank | Continuation | Start(name: Bytes) | NotAField

  function Classify(line: Bytes): Line {
    var content := TrimEol(line);
    if content == [] then Blank
    else if IsWsp(content[0]) then Continuation
    else if FieldName(content) == [] then NotAField
    else Start(FieldName(content))
  }

  /** Parses rest, of which off bytes came before, with done fields finished and cur under way. */
  function Scan(rest: Bytes, off: nat, cur: Current, done: seq<Header>, lim: Limits): Section
    decreases |rest|
  {
    if off > lim.maxHeaderBytes then Failed(HeaderSize)
    else if rest == [] then Section(done + Flush(cur), off, [])
    else
      var n := LineLength(rest);
      match Classify(rest[..n])
      case Blank => Section(done + Flush(cur), off + n, rest[n..])
      case Continuation => Scan(rest[n..], off + n, Extend(cur, rest[..n]), done, lim)
      case NotAField => Section(done + Flush(cur), off, rest)
      case Start(name) =>
        if |done + Flush(cur)| >= lim.maxHeaders then Failed(HeaderCount)
        else Scan(rest[n..], off + n, Field(name, rest[..n]), done + Flush(cur), lim)
  }

  datatype Parsed = TooLarge(error: LimitError) | Message(headers: seq<Header>, headerSize: nat, body: Bytes)

  function ParseMessage(data: Bytes, lim: Limits): Parsed {
    if |data| > lim.maxMessageBytes then TooLarge(MessageSize)
    else
      match Scan(data, 0, NoField, [], lim)
      case Failed(e) => TooLarge(e)
      case Section(headers, size, body) => Message(headers, size, body)
  }

  // ---------------------------------------------------------------- the loop

  /** The line starting at off, and the offset of the next one. */
  method NextLine(data: Bytes, off: nat) returns (line: Bytes, next: nat)
    requires off < |data|
    ensures off < next <= |data| && next == off + LineLength(data[off..]) && line == data[off..next]
  {
    var i := IndexOf(data[off..], LF);
    if i < 0 {
      return data[off..], |data|;
    }
    return data[off..off + i + 1], off + i + 1;
  }

  /** The header being collected between start and off. */
  ghost function Collecting(data: Bytes, cur: Current, start: nat, off: nat): Current
    requires start <= off <= |data|
  {
    if cur.NoField? then NoField else Field(cur.name, data[start..off])
  }

  /** One line of a scan, seen from the whole message. */
  lemma ScanLine(data: Bytes, off: nat, next: nat, cur: Current, done: seq<Header>, lim: Limits)
    requires off < |data| && next == off + LineLength(data[off..]) && off <= lim.maxHeaderBytes
    ensures var line := data[off..next];
            var flushed := done + Flush(cur);
            Scan(data[off..], off, cur, done, lim) ==
              match Classify(line)
              case Blank => Section(flushed, next, data[next..])
              case Continuation => Scan(data[next..], next, Extend(cur, line), done, lim)
              case NotAField => Section(flushed, off, data[off..])
              case Start(name) =>
                if |flushed| >= lim.maxHeaders then Failed(HeaderCount)
                else Scan(data[next..], next, Field(name, line), flushed, lim)
  {
    hide Classify, FieldValue;
    var rest := data[off..];
    assert rest[..next - off] == data[off..next] && rest[next - off..] == data[next..];
  }

  lemma CollectLine(data: Bytes, cur: Current, start: nat, off: nat, next: nat)
    requires start <= off <= next <= |data|
    ensures Extend(Collecting(data, cur, start, off), data[off..next]) == Collecting(data, cur, start, next)
  {
    assert data[start..off] + data[off..next] == data[start..next];
  }

  class Parser {
    const data: Bytes
    const lim: Limits
    var headers: seq<Header>

    constructor (data: Bytes, lim: Limits)
      ensures this.data == data && this.lim == lim && headers == []
    {
      this.data, this.lim, headers := data, lim, [];
    }

    /** Ends the field under way at end; only its name is in cur. */
    method FlushField(cur: Current, start: nat, end: nat)
      requires start <= end <= |data|
      modifies this
      ensures headers == old(headers) + Flush(Collecting(data, cur, start, end))
    {
      if cur.Field? {
        var raw := data[start..end];
        headers := headers + [Header(cur.name, FieldValue(raw), raw)];
      }
    }

    /** Parses the header section; on success the body starts at the returned offset. */
    method ParseHeaderSection() returns (ok: bool, error: LimitError, offset: nat)
      requires headers == []
      modifies this
      ensures Scan(data, 0, NoField, [], lim)
           == if ok then Section(headers, offset, if offset <= |data| then data[offset..] else []) else Failed(error)
      ensures ok ==> offset <= |data|
    {
      var off: nat := 0;
      var cur, curStart := NoField, 0;
      error := HeaderSize;
      assert data[0..] == data;
      while off < |data|
        invariant curStart <= off <= |data|
        invariant Scan(data, 0, NoField, [], lim)
               == Scan(data[off..], off, Collecting(data, cur, curStart, off), headers, lim)
        decreases |data| - off
      {
        if off > lim.maxHeaderBytes {
          return false, HeaderSize, 0;
        }
        var line, next := NextLine(data, off);
        ScanLine(data, off, next, Collecting(data, cur, curStart, off), headers, lim);
        var content := TrimEol(line);
        if |content| == 0 {
          FlushField(cur, curStart, off);
          return true, error, next;
        }
        if IsWsp(content[0]) {
          CollectLine(data, cur, curStart, off, next);
          off := next;
          continue;
        }
        var name := FieldName(content);
        if name == [] {
          FlushField(cur, curStart, off);
          return true, error, off;
        }
        FlushField(cur, curStart, off);
        if |headers| >= lim.maxHeaders {
          return false, HeaderCount, 0;
        }
        cur, curStart, off := Field(name, []), off, next;
      }
      assert data[off..] == [];
      if |data| > lim.maxHeaderBytes {
        return false, HeaderSize, 0;
      }
      FlushField(cur, curStart, |data|);
      return true, error, |data|;
    }
  }

  method ParseBytes(data: Bytes, lim: Limits) returns (m: Parsed)
    ensures m == ParseMessage(data, lim)
  {
    if |data| > lim.maxMessageBytes {
      return TooLarge(MessageSize);
    }
    var p := new Parser(data, lim);
    var ok, error, offset := p.ParseHeaderSection();
    m := if ok then Message(p.headers, offset, data[offset..]) else TooLarge(error);
  }
}
