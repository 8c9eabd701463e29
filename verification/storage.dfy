/**
 * `FlowyStorage`: the session log, one JSON-encoded event per line, held as
 * the bytes of its UTF-8 encoding. The file is `None` when it does not
 * exist. The JSON encoder and decoder are a `Codec` parameter, and the
 * platform facts that decide whether a file operation succeeds are a
 * `Platform` parameter.
 */
module Storage {
  import opened Wrappers
  import opened Text
  import opened Models
  import Select
  import Utf8

  /**
   * `JSONEncoder().encode` followed by UTF-8 conversion (`None` when either
   * fails), and `JSONDecoder().decode` of one line (`None` when it throws).
   */
  datatype Codec = Codec(encode: Event -> Option<string>, decode: string -> Option<Event>)

  /** The `Codable` promise: whatever the encoder produces decodes to the event it came from. */
  ghost predicate Lawful(c: Codec) {
    forall e :: c.encode(e).Some? ==> c.decode(c.encode(e).value) == Some(e)
  }

  /**
   * The event encodes to a non-empty string free of every character in
   * Foundation's `.newlines` set. Section 7 of RFC 8259 requires escaping
   * line feed and carriage return inside strings but allows U+0085, U+2028
   * and U+2029 unescaped, so this is a condition on the encoder's output,
   * not a guarantee.
   */
  predicate LineSafe(c: Codec, e: Event) {
    c.encode(e).Some? ==> c.encode(e).value != [] && forall i :: 0 <= i < |c.encode(e).value| ==> !IsNewline(c.encode(e).value[i])
  }

  /**
   * Which file operations succeed: whether the documents directory exists
   * (`sessionFileURL != nil`), whether writing and opening for append
   * succeed, whether the file can be read, whether it can be removed.
   */
  datatype Platform = Platform(hasDocuments: bool, canWrite: bool, canRead: bool, canRemove: bool)

  /** The session log file's bytes: `None` when it does not exist. */
  datatype Store = Store(file: Option<seq<Utf8.Byte>>)

  /** The line written for an event that encodes. */
  function Line(encoded: string): string {
    encoded + "\n"
  }

  /**
   * `appendEvent(_:)`: when there is a documents directory, the event
   * encodes and the write succeeds, the file gains exactly the UTF-8 bytes
   * of the encoded event and a line feed at its end (and is created if
   * missing); otherwise nothing changes.
   */
  function AppendEvent(s: Store, p: Platform, c: Codec, e: Event): (r: Store)
    ensures !p.hasDocuments || !p.canWrite || c.encode(e).None? ==> r == s
    ensures p.hasDocuments && p.canWrite && c.encode(e).Some? ==>
      && r.file.Some?
      && |r.file.value| == |s.file.GetOr([])| + |Utf8.Encode(Line(c.encode(e).value))|
      && r.file.value[..|s.file.GetOr([])|] == s.file.GetOr([])
      && r.file.value[|s.file.GetOr([])|..] == Utf8.Encode(Line(c.encode(e).value))
  {
    if !p.hasDocuments then s
    else match c.encode(e)
      case None => s
      case Some(enc) =>
        if !p.canWrite then s
        else
          var bytes := Utf8.Encode(Line(enc));
          match s.file
          case None => Store(Some(bytes))
          case Some(content) =>
            assert (content + bytes)[..|content|] == content;
            Store(Some(content + bytes))
  }

  /** `components(separatedBy: .newlines)`: the pieces between newline characters, one more than there are newlines. */
  function SplitLines(s: string): (r: seq<string>)
    ensures |r| == 1 + NewlineCount(s)
    ensures forall k :: 0 <= k < |r| ==> forall i :: 0 <= i < |r[k]| ==> !IsNewline(r[k][i])
  {
    if s == [] then [[]]
    else if IsNewline(s[0]) then [[]] + SplitLines(s[1..])
    else
      var rest := SplitLines(s[1..]);
      [[s[0]] + rest[0]] + rest[1..]
  }

  function NewlineCount(s: string): nat {
    if s == [] then 0 else (if IsNewline(s[0]) then 1 else 0) + NewlineCount(s[1..])
  }

  /** A string without newlines is a single piece. */
  lemma {:induction false} SplitLinesSingle(l: string)
    requires forall i :: 0 <= i < |l| ==> !IsNewline(l[i])
    ensures SplitLines(l) == [l]
  {
    if l != [] {
      SplitLinesSingle(l[1..]);
      assert [l[0]] + l[1..] == l;
    }
  }

  /** Splitting at a newline character splits the piece lists apart. */
  lemma {:induction false} SplitLinesAt(a: string, nl: char, b: string)
    requires IsNewline(nl)
    ensures SplitLines(a + [nl] + b) == SplitLines(a) + SplitLines(b)
  {
    if a == [] {
      assert a + [nl] + b == [nl] + b;
      assert ([nl] + b)[1..] == b;
    } else {
      var s := a + [nl] + b;
      assert s[0] == a[0] && s[1..] == a[1..] + [nl] + b;
      SplitLinesAt(a[1..], nl, b);
      var rest := SplitLines(a[1..]);
      Select.AppendAssoc([[a[0]] + rest[0]], rest[1..], SplitLines(b));
    }
  }

  /** The events of the non-empty lines that decode, in line order. */
  function DecodeLines(lines: seq<string>, c: Codec): (r: seq<Event>)
    ensures |r| <= |lines|
    ensures forall e :: e in r ==> exists i :: 0 <= i < |lines| && lines[i] != [] && c.decode(lines[i]) == Some(e)
    ensures forall i :: 0 <= i < |lines| && lines[i] != [] && c.decode(lines[i]).Some? ==> c.decode(lines[i]).value in r
  {
    if lines == [] then []
    else
      var rest := DecodeLines(lines[1..], c);
      if lines[0] != [] && c.decode(lines[0]).Some? then [c.decode(lines[0]).value] + rest else rest
  }

  lemma {:induction false} DecodeLinesAppend(a: seq<string>, b: seq<string>, c: Codec)
    ensures DecodeLines(a + b, c) == DecodeLines(a, c) + DecodeLines(b, c)
  {
    if a == [] {
      assert a + b == b;
    } else {
      assert (a + b)[0] == a[0] && (a + b)[1..] == a[1..] + b;
      DecodeLinesAppend(a[1..], b, c);
      if a[0] != [] && c.decode(a[0]).Some? {
        Select.AppendAssoc([c.decode(a[0]).value], DecodeLines(a[1..], c), DecodeLines(b, c));
      }
    }
  }

  /** The events a text holds. */
  function Contents(content: string, c: Codec): seq<Event> {
    DecodeLines(SplitLines(content), c)
  }

  /** `String(data: data, encoding: .utf8) ?? ""`: bytes that are not all well-formed read as no text. */
  function ReadText(bytes: seq<Utf8.Byte>): (t: string)
    ensures Utf8.Decode(bytes).Some? ==> t == Utf8.Decode(bytes).value
    ensures Utf8.Decode(bytes).None? ==> t == []
  {
    Utf8.Decode(bytes).GetOr([])
  }

  /** The events a file's bytes hold. */
  function FileContents(bytes: seq<Utf8.Byte>, c: Codec): seq<Event> {
    Contents(ReadText(bytes), c)
  }

  /** No text holds no events. */
  lemma NoTextNoEvents(c: Codec)
    ensures Contents([], c) == []
  {
    var empty: seq<string> := [[]];
    assert SplitLines([]) == empty;
    assert empty[1..] == [];
  }

  /**
   * `retrieveAndClearLog()`: `None` without a documents directory, without
   * a file or when the read fails; otherwise the events of the file's text,
   * and none at all when the file is not entirely well-formed UTF-8. Despite
   * the name the file is returned unchanged.
   */
  function RetrieveAndClearLog(s: Store, p: Platform, c: Codec): (r: (Option<seq<Event>>, Store))
    ensures r.1 == s
    ensures r.0.None? <==> !p.hasDocuments || s.file.None? || !p.canRead
    ensures r.0.Some? && Utf8.Decode(s.file.value).Some? ==> r.0.value == Contents(Utf8.Decode(s.file.value).value, c)
    ensures r.0.Some? && Utf8.Decode(s.file.value).None? ==> r.0.value == []
  {
    NoTextNoEvents(c);
    if !p.hasDocuments || s.file.None? || !p.canRead then (None, s)
    else (Some(FileContents(s.file.value, c)), s)
  }

  /** `clearLog()`: removes the file when there is a documents directory and removal succeeds. */
  function ClearLog(s: Store, p: Platform): (r: Store)
    ensures p.hasDocuments && p.canRemove ==> r.file.None?
    ensures !(p.hasDocuments && p.canRemove) ==> r == s
  {
    if p.hasDocuments && p.canRemove then Store(None) else s
  }

  /** After a successful clear the next retrieve finds nothing. */
  lemma ClearThenRetrieve(s: Store, p: Platform, c: Codec)
    requires p.hasDocuments && p.canRemove
    ensures RetrieveAndClearLog(ClearLog(s, p), p, c).0.None?
  {
  }

  /** Every line of a text is complete: the text is empty or ends with a newline character. */
  predicate LinesComplete(t: string) {
    t == [] || IsNewline(t[|t| - 1])
  }

  /** The file, if there is one, is well-formed UTF-8 and its lines are complete. */
  predicate Terminated(s: Store) {
    s.file.Some? ==> Utf8.Decode(s.file.value).Some? && LinesComplete(Utf8.Decode(s.file.value).value)
  }

  /** An append adds the line's text to the file's text. */
  lemma AppendText(s: Store, p: Platform, c: Codec, e: Event)
    requires Terminated(s)
    requires p.hasDocuments && p.canWrite && c.encode(e).Some?
    ensures Utf8.Decode(AppendEvent(s, p, c, e).file.value)
      == Some(ReadText(s.file.GetOr([])) + Line(c.encode(e).value))
  {
    var prior := s.file.GetOr([]);
    var bytes := Utf8.Encode(Line(c.encode(e).value));
    assert AppendEvent(s, p, c, e).file.value == prior + bytes;
    assert Utf8.Decode(prior).Some?;
    Utf8.AppendEncoded(prior, Line(c.encode(e).value));
  }

  /** Appending keeps the file well-formed and every line of it complete. */
  lemma AppendKeepsTerminated(s: Store, p: Platform, c: Codec, e: Event)
    requires Terminated(s)
    ensures Terminated(AppendEvent(s, p, c, e))
  {
    if p.hasDocuments && p.canWrite && c.encode(e).Some? {
      AppendText(s, p, c, e);
    }
  }

  /** The file of one line holds exactly the event that line encodes. */
  lemma LineContents(c: Codec, e: Event)
    requires Lawful(c) && LineSafe(c, e) && c.encode(e).Some?
    ensures Contents(Line(c.encode(e).value), c) == [e]
  {
    var enc := c.encode(e).value;
    SplitLinesSingle(enc);
    assert Line(enc) == enc + ['\n'] + [];
    SplitLinesAt(enc, '\n', []);
    assert SplitLines(Line(enc)) == [enc, []];
    var empty: seq<string> := [[]];
    assert DecodeLines(empty, c) == [] by {
      assert empty[1..] == [];
    }
    assert [enc, []][1..] == [[]];
    assert enc != [] && c.decode(enc) == Some(e);
  }

  /** What a text with complete lines holds is kept in front of anything written after it. */
  lemma TerminatedConcat(prior: string, x: string, c: Codec)
    requires LinesComplete(prior)
    ensures Contents(prior + x, c) == Contents(prior, c) + Contents(x, c)
  {
    if prior == [] {
      assert prior + x == x;
      assert SplitLines(prior) == [[]];
    } else {
      var body := prior[..|prior| - 1];
      var nl := prior[|prior| - 1];
      assert prior == body + [nl];
      LineEndConcat(body, nl, x, c);
    }
  }

  lemma LineEndConcat(body: string, nl: char, x: string, c: Codec)
    requires IsNewline(nl)
    ensures Contents(body + [nl] + x, c) == Contents(body + [nl], c) + Contents(x, c)
  {
    var lines := SplitLines(body);
    var empty: seq<string> := [[]];
    assert SplitLines(body + [nl]) == lines + empty by {
      assert body + [nl] + [] == body + [nl];
      SplitLinesAt(body, nl, []);
    }
    assert SplitLines(body + [nl] + x) == lines + SplitLines(x) by {
      SplitLinesAt(body, nl, x);
    }
    assert Contents(body + [nl], c) == DecodeLines(lines, c) by {
      DecodeLinesAppend(lines, empty, c);
      assert DecodeLines(empty, c) == [];
    }
    DecodeLinesAppend(lines, SplitLines(x), c);
  }

  /**
   * Appending one encodable, line-safe event to a file whose lines are
   * complete adds exactly that event at the end of what the file holds.
   */
  lemma AppendThenContents(s: Store, p: Platform, c: Codec, e: Event)
    requires Lawful(c) && LineSafe(c, e) && Terminated(s)
    requires p.hasDocuments && p.canWrite && c.encode(e).Some?
    ensures FileContents(AppendEvent(s, p, c, e).file.value, c) == FileContents(s.file.GetOr([]), c) + [e]
  {
    var enc := c.encode(e).value;
    var prior := ReadText(s.file.GetOr([]));
    AppendText(s, p, c, e);
    assert ReadText(AppendEvent(s, p, c, e).file.value) == prior + Line(enc);
    LineContents(c, e);
    TerminatedConcat(prior, Line(enc), c);
  }

  /** Every event of the list encodes, and to a line-safe string. */
  predicate AllEncodable(c: Codec, es: seq<Event>) {
    forall i :: 0 <= i < |es| ==> c.encode(es[i]).Some? && LineSafe(c, es[i])
  }

  /** Appending a list of events one by one. */
  function AppendAll(s: Store, p: Platform, c: Codec, es: seq<Event>): Store
    decreases |es|
  {
    if es == [] then s else AppendAll(AppendEvent(s, p, c, es[0]), p, c, es[1..])
  }

  /** Appending two lists in turn is appending their concatenation. */
  lemma {:induction false} AppendAllConcat(s: Store, p: Platform, c: Codec, a: seq<Event>, b: seq<Event>)
    ensures AppendAll(AppendAll(s, p, c, a), p, c, b) == AppendAll(s, p, c, a + b)
    decreases |a|
  {
    if a == [] {
      assert a + b == b;
    } else {
      assert (a + b)[0] == a[0] && (a + b)[1..] == a[1..] + b;
      AppendAllConcat(AppendEvent(s, p, c, a[0]), p, c, a[1..], b);
    }
  }

  /**
   * The log's round trip: appending lawfully encodable, line-safe events to
   * a missing file and reading it back returns them all, in order.
   */
  lemma {:induction false} AppendAllThenRetrieve(s: Store, p: Platform, c: Codec, es: seq<Event>)
    requires Lawful(c) && Terminated(s)
    requires p.hasDocuments && p.canWrite && p.canRead
    requires AllEncodable(c, es)
    ensures AppendAll(s, p, c, es).file.Some? || (s.file.None? && es == [])
    ensures AppendAll(s, p, c, es).file.Some? ==>
      FileContents(AppendAll(s, p, c, es).file.value, c) == FileContents(s.file.GetOr([]), c) + es
    decreases |es|
  {
    if es != [] {
      var s1 := AppendEvent(s, p, c, es[0]);
      var before := FileContents(s.file.GetOr([]), c);
      assert FileContents(s1.file.GetOr([]), c) == before + [es[0]] by {
        AppendThenContents(s, p, c, es[0]);
      }
      AppendKeepsTerminated(s, p, c, es[0]);
      assert AllEncodable(c, es[1..]) by {
        assert forall i :: 0 <= i < |es[1..]| ==> es[1..][i] == es[i + 1];
      }
      AppendAllThenRetrieve(s1, p, c, es[1..]);
      assert before + [es[0]] + es[1..] == before + es by {
        Select.AppendAssoc(before, [es[0]], es[1..]);
        assert [es[0]] + es[1..] == es;
      }
    } else {
      assert FileContents(s.file.GetOr([]), c) + es == FileContents(s.file.GetOr([]), c);
    }
  }

  /** What a fresh log gives back after the appends: exactly the events, in order. */
  lemma FreshLogRoundTrip(p: Platform, c: Codec, es: seq<Event>)
    requires Lawful(c)
    requires p.hasDocuments && p.canWrite && p.canRead
    requires AllEncodable(c, es)
    ensures RetrieveAndClearLog(AppendAll(Store(None), p, c, es), p, c).0
      == (if es == [] then None else Some(es))
  {
    AppendAllThenRetrieve(Store(None), p, c, es);
    assert FileContents([], c) == [] by {
      NoTextNoEvents(c);
    }
    if es != [] {
      var f := AppendAll(Store(None), p, c, es).file;
      assert f.Some?;
      assert FileContents(f.value, c) == [] + es == es;
    }
  }

  /**
   * A well-formed tail after the last complete line (a foreign line, a line
   * the decoder rejects, a write cut at a character boundary) never costs
   * the events before it: they stay a prefix of what is read.
   */
  lemma CorruptTailKeepsRecords(prior: seq<Utf8.Byte>, tail: seq<Utf8.Byte>, c: Codec)
    requires Terminated(Store(Some(prior)))
    requires Utf8.Decode(tail).Some?
    ensures FileContents(prior, c) <= FileContents(prior + tail, c)
  {
    var before, after := Utf8.Decode(prior).value, Utf8.Decode(tail).value;
    Utf8.DecodeAppend(prior, tail);
    TerminatedConcat(before, after, c);
  }

  /**
   * A tail that is not well-formed UTF-8 (a write cut inside a multi-byte
   * character, foreign bytes) makes the whole file unreadable: retrieve
   * returns no events at all, however many complete lines come before it.
   */
  lemma MalformedTailLosesLog(prior: seq<Utf8.Byte>, tail: seq<Utf8.Byte>, p: Platform, c: Codec)
    requires Utf8.Decode(prior).Some? && Utf8.Decode(tail).None?
    requires p.hasDocuments && p.canRead
    ensures RetrieveAndClearLog(Store(Some(prior + tail)), p, c).0 == Some([])
  {
    Utf8.DecodeAppend(prior, tail);
  }

  /**
   * The torn write: a log holding one event reads back as that event, but
   * once a later write stops after the first byte of an "é", it reads back
   * as no events.
   */
  lemma TornWriteLosesLog(p: Platform, c: Codec, e: Event)
    requires Lawful(c) && LineSafe(c, e) && c.encode(e).Some?
    requires p.hasDocuments && p.canRead
    ensures var line := Utf8.Encode(Line(c.encode(e).value));
      && RetrieveAndClearLog(Store(Some(line)), p, c).0 == Some([e])
      && RetrieveAndClearLog(Store(Some(line + [0xC3])), p, c).0 == Some([])
  {
    var text := Line(c.encode(e).value);
    Utf8.DecodeEncode(text);
    LineContents(c, e);
    Utf8.TornCharacter();
    MalformedTailLosesLog(Utf8.Encode(text), [0xC3], p, c);
  }
}
