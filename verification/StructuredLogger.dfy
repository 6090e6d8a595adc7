/** The logger object: its stack buffers, its filter, its sink and its clock. */
module StructuredLogger {
  import opened Wrappers
  import opened Text
  import opened Json
  import opened Logger

  /** The byte consumer; it keeps what it was handed, in order. */
  class Sink {
    var records: seq<Text>

    constructor ()
      ensures records == []
    {
      records := [];
    }

    method Consume(data: array<Octet>, length: nat)
      requires length <= data.Length
      modifies this
      ensures records == old(records) + [data[..length]]
    {
      records := records + [data[..length]];
    }
  }

  /** The uptime clock, with how often it was asked. */
  class Clock {
    const uptime: Word
    var readings: nat

    constructor (uptime: Word)
      ensures this.uptime == uptime && readings == 0
    {
      this.uptime := uptime;
      readings := 0;
    }

    method Read() returns (w: Word)
      modifies this
      ensures w == uptime && readings == old(readings) + 1
    {
      readings := readings + 1;
      w := uptime;
    }
  }

  lemma TerminatorPosition(memory: Text)
    requires NUL in memory
    ensures |CString(memory)| < |memory| && memory[|CString(memory)|] == NUL
    ensures forall i :: 0 <= i < |CString(memory)| ==> memory[i] == CString(memory)[i] != NUL
  {
  }

  lemma {:induction false} PrintCharsOfExtended(s: Text, c: Octet)
    ensures PrintChars(s + [c]) == PrintChars(s) + PrintChar(c)
  {
    if s == [] {
      assert s + [c] == [c];
    } else {
      PrintCharsOfExtended(s[1..], c);
      assert (s + [c])[1..] == s[1..] + [c];
      assert PrintChar(s[0]) + (PrintChars(s[1..]) + PrintChar(c)) ==
          PrintChar(s[0]) + PrintChars(s[1..]) + PrintChar(c);
    }
  }

  /** One more input byte, seen by the sanitised and escaped text. */
  lemma EscapedStep(format: Format, s: Text, c: Octet)
    ensures var d := Sanitize(c);
      Escaped(format, SanitizeAll(s + [c])) == Escaped(format, SanitizeAll(s))
        + if format.JsonLines? && (d == '"' || d == '\\') then ['\\', d] else [d]
  {
    hide PrintChars;
    assert SanitizeAll(s + [c]) == SanitizeAll(s) + [Sanitize(c)];
    PrintCharsOfExtended(SanitizeAll(s), Sanitize(c));
  }

  lemma PrintableHasNoNul(s: Text)
    requires Printable(s)
    ensures NUL !in s && CString(s) == s
  {
  }

  lemma EscapedCleanHasNoNul(format: Format, pointer: Option<Text>, limit: nat)
    ensures NUL !in Escaped(format, Clean(pointer, limit))
  {
    hide PrintChars, Clean;
    CleanPrintable(pointer, limit);
    EscapingKeepsPrintable(Clean(pointer, limit));
    PrintableHasNoNul(Escaped(format, Clean(pointer, limit)));
  }

  lemma CStringBeforeTerminator(s: Text, memory: Text)
    requires |s| < |memory| && memory[..|s|] == s && memory[|s|] == NUL && NUL !in s
    ensures CString(memory) == s
  {
    assert memory == s + [NUL] + memory[|s| + 1..];
    SplitAtFirst(s, memory[|s| + 1..], NUL);
  }

  /** What `encode` leaves in its buffer, told by the input's bytes. */
  lemma ShownInBuffer(format: Format, pointer: Option<Text>, limit: nat)
    ensures TooLong(pointer, limit) == CutShort(pointer, limit)
    ensures forall r :: Shows(r, pointer, limit) ==>
      Escaped(format, Clean(pointer, limit)) == if format.JsonLines? then PrintChars(r) else r
  {
    hide Shows, PrintChars;
    CleanShows(pointer, limit);
    forall r | Shows(r, pointer, limit) ensures r == Clean(pointer, limit) {
      ShownIsUnique(r, Clean(pointer, limit), pointer, limit);
    }
  }

  /** `snprintf` of an already expanded text: what fits is stored and terminated, the full length is returned. */
  method Snprintf(buffer: array<Octet>, text: Text) returns (length: nat)
    requires buffer.Length > 0
    modifies buffer
    ensures length == |text|
    ensures length < buffer.Length ==> buffer[..length] == text && buffer[length] == NUL
    ensures length >= buffer.Length ==> buffer[..] == text[..buffer.Length - 1] + [NUL]
  {
    length := |text|;
    var stored := if length < buffer.Length then length else buffer.Length - 1;
    for i := 0 to stored
      invariant buffer[..i] == text[..i]
    {
      buffer[i] := text[i];
    }
    buffer[stored] := NUL;
  }

  class StructuredLogger {
    const sink: Sink?
    const clock: Clock?
    const level: Level
    const format: Format

    constructor (sink: Sink?, clock: Clock?, level: Level, format: Format)
      ensures this.sink == sink && this.clock == clock && this.level == level && this.format == format
    {
      this.sink, this.clock, this.level, this.format := sink, clock, level, format;
    }

    /** The record goes out only with a sink, at or above the threshold, and never at level `off`. */
    predicate Passes(level: Level) {
      sink != null && this.level.Rank() <= level.Rank() < Off.Rank()
    }

    /** Which levels each threshold lets through. */
    lemma PassesExactly(level: Level)
      ensures Passes(level) <==> sink != null && match this.level
        case Debug => level != Off
        case Info => level in {Info, Warn, Error}
        case Warn => level in {Warn, Error}
        case Error => level == Error
        case Off => false
    {
    }

    method EmitByte(output: array<Octet>, at: nat, c: Octet) returns (next: nat)
      requires at + 2 <= output.Length
      modifies output
      ensures at <= next <= at + 2
      ensures output[..next] == old(output[..at])
        + if format.JsonLines? && (c == '"' || c == '\\') then ['\\', c] else [c]
    {
      next := at;
      if format.JsonLines? && (c == '"' || c == '\\') {
        output[next] := '\\';
        next := next + 1;
      }
      output[next] := c;
      next := next + 1;
    }

    /** `encode`: sanitise, escape and terminate at most `limit` input bytes; tell whether input was left over. */
    method Encode(pointer: Option<Text>, output: array<Octet>, limit: nat) returns (truncated: bool)
      requires pointer.Some? ==> NUL in pointer.value
      requires output.Length > 2 * limit
      modifies output
      ensures truncated == TooLong(pointer, limit) && truncated == CutShort(pointer, limit)
      ensures CString(output[..]) == Escaped(format, Clean(pointer, limit))
      ensures forall r :: Shows(r, pointer, limit) ==>
        CString(output[..]) == if format.JsonLines? then PrintChars(r) else r
    {
      hide Escaped, SanitizeAll, CString, CutShort, PrintChars;
      ShownInBuffer(format, pointer, limit);
      EscapedCleanHasNoNul(format, pointer, limit);
      if pointer.None? {
        EmptyEscaped(format);
        output[0] := NUL;
        CStringBeforeTerminator([], output[..]);
        return false;
      }
      var input := pointer.value;
      TerminatorPosition(input);
      ghost var shown := CString(input);
      var index, at := 0, 0;
      EmptyEscaped(format);
      assert shown[..0] == [];
      while index < limit && input[index] != NUL
        invariant index <= limit && index <= |shown| && at <= 2 * index
        invariant output[..at] == Escaped(format, SanitizeAll(shown[..index]))
      {
        EscapedStep(format, shown[..index], input[index]);
        assert shown[..index] + [input[index]] == shown[..index + 1];
        at := EmitByte(output, at, Sanitize(input[index]));
        index := index + 1;
      }
      assert shown[..index] == if |shown| <= limit then shown else shown[..limit];
      ghost var text := output[..at];
      output[at] := NUL;
      assert output[..at] == text;
      CStringBeforeTerminator(text, output[..]);
      truncated := index == limit && input[index] != NUL;
    }

    /** `write` */
    method Write(level: Level, component: Option<Text>, message: Option<Text>, field: Field, value: Word)
      requires component.Some? ==> NUL in component.value
      requires message.Some? ==> NUL in message.value
      modifies sink, clock
      ensures !Passes(level) ==> (sink != null ==> unchanged(sink)) && (clock != null ==> unchanged(clock))
      ensures Passes(level) ==>
        var uptime := if clock == null then 0 else clock.uptime;
        sink.records == old(sink.records) + [Line(format, uptime, Entry(level, component, message, field, value))]
      ensures clock != null && Passes(level) ==> clock.readings == old(clock.readings) + 1
    {
      hide Extra, Escaped, Clean, RecordText, TooLong, CString;
      if !Passes(level) {
        return;
      }
      var e := Entry(level, component, message, field, value);
      var safeComponent, safeMessage, extra, truncated := FillBuffers(e);
      var uptime: Word := 0;
      if clock != null {
        uptime := clock.Read();
      }
      var text := RecordText(format, uptime, level.Name(), CString(safeComponent[..]), CString(safeMessage[..]),
                             truncated, CString(extra[..]));
      LineFits(format, uptime, e);
      Emit(text);
    }

    /** The three buffers on the stack, filled; and was either input cut? */
    method FillBuffers(e: Entry)
      returns (safeComponent: array<Octet>, safeMessage: array<Octet>, extra: array<Octet>, truncated: bool)
      requires e.component.Some? ==> NUL in e.component.value
      requires e.message.Some? ==> NUL in e.message.value
      ensures CString(safeComponent[..]) == Escaped(format, Clean(e.component, COMPONENT_LIMIT))
      ensures CString(safeMessage[..]) == Escaped(format, Clean(e.message, MESSAGE_LIMIT))
      ensures CString(extra[..]) == Extra(format, e)
      ensures truncated == Truncated(e)
    {
      hide Extra, Escaped, Clean, TooLong, CString;
      safeComponent, safeMessage, extra := new Octet[65], new Octet[257], new Octet[48];
      truncated := Encode(e.component, safeComponent, COMPONENT_LIMIT);
      var cut := Encode(e.message, safeMessage, MESSAGE_LIMIT);
      truncated := cut || truncated;
      WriteExtra(e.field, e.value, extra, e);
    }

    /** The record's buffer and the final fit check. */
    method Emit(text: Text)
      requires sink != null
      modifies sink
      ensures sink.records == old(sink.records) + if 0 < |text| < RECORD_SIZE then [text] else []
    {
      var record := new Octet[RECORD_SIZE];
      var length := Snprintf(record, text);
      if length > 0 && length < record.Length {
        sink.Consume(record, length);
      }
    }

    method WriteExtra(field: Field, value: Word, extra: array<Octet>, ghost e: Entry)
      requires extra.Length == 48 && e.field == field && e.value == value
      modifies extra
      ensures CString(extra[..]) == Extra(format, e)
    {
      extra[0] := NUL;
      ExtraLength(format, e);
      ExtraPrintable(format, e);
      PrintableHasNoNul(Extra(format, e));
      if field.Name().Some? {
        var name := field.Name().value;
        var text :=
          if format.JsonLines? then ",\"" + name + "\":" + Decimal(value) else " " + name + "=" + Decimal(value);
        var length := Snprintf(extra, text);
      }
      CStringBeforeTerminator(Extra(format, e), extra[..]);
    }
  }

  lemma EmptyEscaped(format: Format)
    ensures Escaped(format, SanitizeAll([])) == []
  {
  }
}
