/** The incremental parser object (expat/xmlparse.c:1532-1660, 1990-2003, 2121-2573,
    2975-3107): the input buffer that is kept between calls, and the loops that consume
    it. */
module XmlParser {
  import opened Wrappers
  import opened Endian
  import opened XmlBytes
  import opened XmlScan
  import opened XmlTok
  import opened XmlContent

  const XML_CONTEXT_BYTES := 1024
  const INIT_BUFFER_SIZE := 1024

  lemma PrependTwice(a: seq<Event>, b: seq<Event>, o: Out)
    ensures Prepend(a, Prepend(b, o)) == Prepend(a + b, o)
  {
    assert a + (b + o.events) == (a + b) + o.events;
  }

  /** `XmlNameLength`, as an end position. */
  method FindNameEnd(enc: Encoding, s: seq<Byte>, start: nat) returns (ptr: nat)
    requires start <= |s|
    ensures ptr == NameEnd(enc, s, start)
  {
    ptr := start;
    while ptr < |s|
      invariant start <= ptr <= |s| && NameEnd(enc, s, start) == NameEnd(enc, s, ptr)
      decreases |s| - ptr
    {
      var t := enc.byteType(s[ptr]);
      if IsLead(t) {
        if ptr + LeadWidth(t) > |s| {
          return;
        }
        ptr := ptr + LeadWidth(t);
      } else if t.NonAscii? || t.Nmstrt? || t.Colon? || t.Hex? || t.Digit? || t.Name? || t.Minus? {
        ptr := ptr + 1;
      } else {
        return;
      }
    }
  }

  class Parser {
    const client: Client
    var buffer: array<Byte>
    var bufferPtr: nat
    var bufferEnd: nat
    var processor: Mode
    var tagStack: seq<seq<Byte>>
    var calls: seq<Event>
    var errorCode: Option<Error>
    var finished: bool

    ghost predicate Valid()
      reads this
    {
      bufferPtr <= bufferEnd <= buffer.Length
    }

    /** The bytes handed over and not consumed yet. */
    ghost function Unread(): seq<Byte>
      requires Valid()
      reads this, buffer
    {
      buffer[bufferPtr..bufferEnd]
    }

    ghost function St(): State
      reads this
    {
      State(processor, tagStack)
    }

    /** A parser about to read the root element's start tag. */
    constructor (c: Client)
      ensures Valid() && fresh(buffer) && client == c && Unread() == []
      ensures St() == State(Content, []) && calls == [] && errorCode.None? && !finished
    {
      client := c;
      buffer := new Byte[0];
      bufferPtr, bufferEnd := 0, 0;
      processor, tagStack, calls := Content, [], [];
      errorCode, finished := None, false;
    }

    /** The bytes from `keep` before `bufferPtr` on, moved to the start of the buffer. */
    method MoveDown(keep: nat)
      requires Valid() && keep < bufferPtr
      modifies this`bufferPtr, this`bufferEnd, buffer
      ensures Valid() && Unread() == old(Unread()) && bufferPtr == keep
    {
      var offset, n := bufferPtr - keep, bufferEnd - bufferPtr + keep;
      ghost var all := buffer[..];
      forall k | 0 <= k < n {
        buffer[k] := buffer[offset + k];
      }
      bufferEnd := bufferEnd - offset;
      bufferPtr := bufferPtr - offset;
      assert buffer[keep..n] == all[offset + keep..offset + n];
    }

    /** The same bytes, copied to the start of a new buffer of `size` bytes. */
    method Reallocate(keep: nat, size: nat)
      requires Valid() && keep <= bufferPtr && bufferEnd - bufferPtr + keep <= size
      modifies this`buffer, this`bufferPtr, this`bufferEnd
      ensures Valid() && Unread() == old(Unread()) && bufferPtr == keep
      ensures fresh(buffer) && buffer.Length == size
    {
      var n, from := bufferEnd - bufferPtr + keep, bufferPtr - keep;
      var newBuf := new Byte[size];
      forall k | 0 <= k < n {
        newBuf[k] := buffer[from + k];
      }
      assert newBuf[keep..n] == buffer[bufferPtr..bufferEnd];
      bufferPtr, bufferEnd, buffer := keep, n, newBuf;
    }

    /** `XML_GetBuffer`: room for `len` more bytes behind the unread ones, which are all
        kept, after moving them down in the buffer or into a larger one; none after the
        final buffer. */
    method GetBuffer(len: nat) returns (ok: bool)
      requires Valid()
      modifies this`buffer, this`bufferPtr, this`bufferEnd, this`errorCode, buffer
      ensures Valid() && Unread() == old(Unread())
      ensures buffer == old(buffer) || fresh(buffer)
      ensures ok == !finished
      ensures errorCode == if finished then Some(Error.Finished) else old(errorCode)
      ensures ok ==> bufferEnd + len <= buffer.Length
    {
      if finished {
        errorCode := Some(Error.Finished);
        return false;
      }
      ok := true;
      if len > buffer.Length - bufferEnd {
        var keep := if bufferPtr > XML_CONTEXT_BYTES then XML_CONTEXT_BYTES else bufferPtr;
        var neededSize := len + (bufferEnd - bufferPtr) + keep;
        if neededSize <= buffer.Length {
          if keep < bufferPtr {
            MoveDown(keep);
          }
        } else {
          var bufferSize := buffer.Length - bufferPtr;
          if bufferSize == 0 {
            bufferSize := INIT_BUFFER_SIZE;
          }
          bufferSize := bufferSize * 2;
          while bufferSize < neededSize
            invariant bufferSize > 0
            decreases neededSize - bufferSize
          {
            bufferSize := bufferSize * 2;
          }
          Reallocate(keep, bufferSize);
        }
      }
    }

    /** The switch of `doContent` on one complete token. */
    method OnContentToken(kind: Kind, bytes: seq<Byte>) returns (error: Option<Error>)
      modifies this`processor, this`tagStack, this`calls
      ensures match OnToken(client, old(St()), kind, bytes)
              case Fail(e) => error == Some(e) && calls == old(calls)
              case Next(st, events, n) => error == None && St() == st && calls == old(calls) + events
              case Wait(_) => false
    {
      error := None;
      match kind
      case StartNoAtts | StartWithAtts =>
        error := client.atts(bytes);
        if error.None? {
          var name := RawNameOf(bytes, 1);
          tagStack := tagStack + [name];
          processor := Content;
          calls := calls + [Start(bytes)];
        }
      case EmptyNoAtts | EmptyWithAtts =>
        error := client.atts(bytes);
        if error.None? {
          var name := RawNameOf(bytes, 1);
          calls := calls + [Start(bytes), End(name)];
          processor := if tagStack == [] then Epilog else Content;
        }
      case EndTag =>
        if tagStack == [] {
          return Some(AsyncEntity);
        }
        var name := RawNameOf(bytes, 2);
        if name != tagStack[|tagStack| - 1] {
          return Some(TagMismatch);
        }
        tagStack := tagStack[..|tagStack| - 1];
        calls := calls + [End(name)];
        processor := if tagStack == [] then Epilog else Content;
      case EntityRef | CharRef =>
        var r := client.reference(bytes);
        if r.Err? {
          return Some(r.error);
        }
        calls := calls + [Text(r.value)];
      case XmlDecl => return Some(MisplacedXmlPi);
      case DataChars => calls := calls + [Text(bytes)];
      case DataNewline => calls := calls + [Text([0x0A])];
      case CdataOpen =>
        calls := calls + [CdataStart];
        processor := Cdata;
      case CdataClose =>
        calls := calls + [CdataEnd];
        processor := Content;
      case Pi => calls := calls + [Instruction(bytes)];
      case Comment => calls := calls + [Remark(bytes)];
    }

    method RawNameOf(tag: seq<Byte>, i: nat) returns (name: seq<Byte>)
      ensures name == RawName(client.enc, tag, i)
    {
      if i > |tag| {
        return [];
      }
      var j := FindNameEnd(client.enc, tag, i);
      return tag[i..j];
    }

    /** One turn of either loop, on the token `t` scanned from `s`: an error, a wait for
        more bytes, or the bytes left after the token. */
    method Turn(t: Token, s: seq<Byte>, haveMore: bool) returns (left: seq<Byte>, error: Option<Error>, wait: bool)
      requires t == Scan(client.enc, processor, s)
      modifies this`processor, this`tagStack, this`calls
      ensures var r := OneTurn(client, old(St()), s);
              wait == r.Wait? && left == (if r.Next? then s[r.n..] else s) &&
              calls == (if r.Next? then old(calls) + r.events else old(calls)) &&
              error == (if r.Fail? || (r.Wait? && !haveMore) then Some(r.error) else None) &&
              (r.Wait? ==> St() == old(St())) && (r.Next? ==> St() == r.st)
    {
      left, error, wait := s, None, false;
      match t
      case Invalid(_) => error := Some(InvalidToken);
      case Tok(kind, next) =>
        error := OnContentToken(kind, s[..next]);
        if error.None? {
          left := s[next..];
        }
      case _ =>
        wait := true;
        if !haveMore {
          error := Some(FinalError(processor, t));
        }
    }

    /** The outcome of handing `s` over now, with the calls already made in front. */
    ghost function Whole(s: seq<Byte>, haveMore: bool): Out
      reads this
    {
      Prepend(calls, Drive(client, St(), s, haveMore))
    }

    /** `doCdataSection` on the bytes `s`: up to the end of the section or of the buffer. */
    method DoCdataSection(s: seq<Byte>, haveMore: bool) returns (left: seq<Byte>, error: Option<Error>)
      requires processor.Cdata?
      modifies this`processor, this`tagStack, this`calls
      ensures |left| <= |s|
      ensures error.Some? ==> Stopped(old(Whole(s, haveMore)), calls, error.value)
      ensures error.None? ==> old(Whole(s, haveMore)) == Whole(left, haveMore)
      ensures error.None? ==> processor.Content? ||
                              (processor.Cdata? && old(Whole(s, haveMore)) == Out(St(), calls, left, None))
    {
      left, error := s, None;
      ghost var whole := Whole(s, haveMore);
      while true
        invariant |left| <= |s| && processor.Cdata? && error.None?
        invariant whole == Whole(left, haveMore)
        decreases |left|
      {
        var t := NextCdataTok(client.enc, left);
        Advance(client, whole, calls, St(), left, haveMore);
        var wait: bool;
        left, error, wait := Turn(t, left, haveMore);
        if wait || error.Some? || processor.Content? {
          return;
        }
      }
    }

    /** `doContent` on the bytes `s`. */
    method DoContent(s: seq<Byte>, haveMore: bool) returns (left: seq<Byte>, error: Option<Error>)
      requires processor.Content?
      modifies this`processor, this`tagStack, this`calls
      ensures error.Some? ==> Stopped(old(Whole(s, haveMore)), calls, error.value)
      ensures error.None? ==> old(Whole(s, haveMore)) == Out(St(), calls, left, None)
    {
      left, error := s, None;
      ghost var whole := Whole(s, haveMore);
      while true
        invariant processor.Content? && error.None?
        invariant whole == Whole(left, haveMore)
        decreases |left|
      {
        var t := NextContentTok(client.enc, left);
        Advance(client, whole, calls, St(), left, haveMore);
        var wait: bool;
        left, error, wait := Turn(t, left, haveMore);
        if wait || error.Some? || processor.Epilog? {
          return;
        }
        if processor.Cdata? {
          left, error := DoCdataSection(left, haveMore);
          if error.Some? || processor.Cdata? {
            return;
          }
        }
      }
    }

    /** The processor of the current call: `contentProcessor` or `cdataSectionProcessor`,
        which goes on with content once the section is closed. Behind the root element
        nothing is consumed. */
    method Process(s: seq<Byte>, haveMore: bool) returns (left: seq<Byte>, error: Option<Error>)
      modifies this`processor, this`tagStack, this`calls
      ensures error.Some? ==> Stopped(old(Whole(s, haveMore)), calls, error.value)
      ensures error.None? ==> old(Whole(s, haveMore)) == Out(St(), calls, left, None)
      ensures error.None? ==> IsSuffix(left, s)
    {
      left, error := s, None;
      Suffix(client, St(), s, haveMore);
      if processor.Epilog? {
        return;
      }
      if processor.Cdata? {
        left, error := DoCdataSection(s, haveMore);
        if error.Some? || processor.Cdata? {
          return;
        }
      }
      left, error := DoContent(left, haveMore);
    }

    /** How a call ends that had the bytes `s` to parse in the state `st`, after the calls
        `before`: as the one parse of them does. */
    ghost predicate Reports(before: seq<Event>, st: State, s: seq<Byte>, ok: bool, isFinal: bool)
      requires Valid()
      reads this, buffer
    {
      forall p {:trigger ReportAsked(p, s)} :: ReportAsked(p, s) ==>
        var whole := Prepend(before, Drive(client, st, s, !isFinal));
        if ok then whole == Out(St(), calls, Unread(), None) && errorCode == None && finished == isFinal
        else errorCode.Some? && Stopped(whole, calls, errorCode.value) && !finished
    }

    /** Runs the processor on the bytes behind `bufferPtr` and drops those it consumes. */
    method Consume(haveMore: bool)
      requires Valid() && errorCode.None?
      modifies this`bufferPtr, this`processor, this`tagStack, this`calls, this`errorCode
      ensures Valid()
      ensures errorCode.Some? ==> Stopped(old(Whole(Unread(), haveMore)), calls, errorCode.value)
      ensures errorCode.None? ==> old(Whole(Unread(), haveMore)) == Out(St(), calls, Unread(), None)
    {
      var left;
      left, errorCode := Process(buffer[bufferPtr..bufferEnd], haveMore);
      if errorCode.None? {
        bufferPtr := bufferEnd - |left|;
      }
    }

    /** `XML_ParseBuffer`: the `len` bytes stored behind the unread ones are handed over.
        A parser that has failed only reports that again, and one that has finished reports
        that it has. */
    method ParseBuffer(len: nat, isFinal: bool) returns (ok: bool)
      requires Valid() && bufferEnd + len <= buffer.Length
      modifies this`bufferPtr, this`bufferEnd, this`processor, this`tagStack, this`calls, this`errorCode, this`finished
      ensures Valid()
      ensures old(finished) || old(errorCode).Some? ==>
                !ok && calls == old(calls) && St() == old(St()) && finished == old(finished) &&
                errorCode == if finished then Some(Error.Finished) else old(errorCode)
      ensures !old(finished) && old(errorCode).None? ==>
                Reports(old(calls), old(St()), old(buffer[bufferPtr..bufferEnd + len]), ok, isFinal) == true
    {
      if finished {
        errorCode := Some(Error.Finished);
        return false;
      }
      ghost var whole := Whole(buffer[bufferPtr..bufferEnd + len], !isFinal);
      bufferEnd := bufferEnd + len;
      if errorCode.Some? {
        return false;
      }
      assert Whole(Unread(), !isFinal) == whole;
      Consume(!isFinal);
      if errorCode.Some? {
        return false;
      }
      finished := isFinal;
      return true;
    }

    /** Stores a piece of input behind the unread bytes. */
    method Store(chunk: seq<Byte>)
      requires Valid() && bufferEnd + |chunk| <= buffer.Length
      modifies buffer
      ensures buffer[bufferPtr..bufferEnd + |chunk|] == old(Unread()) + chunk
    {
      forall k | 0 <= k < |chunk| {
        buffer[bufferEnd + k] := chunk[k];
      }
    }

    /** `XML_Parse`: copies the bytes behind the unread ones and hands them over. */
    method Parse(chunk: seq<Byte>, isFinal: bool) returns (ok: bool)
      requires Valid()
      modifies this, buffer
      ensures Valid() && (buffer == old(buffer) || fresh(buffer))
      ensures old(finished) || old(errorCode).Some? ==>
                !ok && calls == old(calls) && St() == old(St()) && finished == old(finished) &&
                errorCode == if finished then Some(Error.Finished) else old(errorCode)
      ensures !old(finished) && old(errorCode).None? ==>
                Reports(old(calls), old(St()), old(Unread()) + chunk, ok, isFinal) == true
    {
      ghost var bytes, st := Unread() + chunk, St();
      ok := GetBuffer(|chunk|);
      if ok {
        Store(chunk);
        assert buffer[bufferPtr..bufferEnd + |chunk|] == bytes && St() == st;
        ok := ParseBuffer(|chunk|, isFinal);
      }
    }

    /** A client that reads a file in pieces (gamexml.cc:540-550): whatever the pieces
        are, the outcome is that of parsing the whole file at once. */
    method ParseAll(chunks: seq<seq<Byte>>) returns (ok: bool)
      requires Valid() && chunks != [] && Unread() == [] && calls == [] && errorCode.None? && !finished
      modifies this, buffer
      ensures Valid()
      ensures var whole := old(Drive(client, St(), Concat(chunks), false));
              ok == whole.error.None? && errorCode == whole.error &&
              (ok ==> St() == whole.st && Unread() == whole.left && Atoms(calls) == Atoms(whole.events))
    {
      ghost var feed := Feed(client, St(), [], chunks);
      BufferIndependence(client, St(), chunks);
      var i := 0;
      ok := true;
      while i < |chunks| && ok
        invariant 0 <= i <= |chunks| && Valid() && (buffer == old(buffer) || fresh(buffer))
        invariant ok && i < |chunks| ==> errorCode.None? && !finished
        invariant ok && i < |chunks| ==> feed == Prepend(calls, Feed(client, St(), Unread(), chunks[i..]))
        invariant ok && i == |chunks| ==> errorCode.None? && feed == Out(St(), calls, Unread(), None)
        invariant !ok ==> feed.error.Some? && errorCode == feed.error
      {
        ghost var st, before, left := St(), calls, Unread();
        ok := Parse(chunks[i], i == |chunks| - 1);
        assert ReportAsked(0, left + chunks[i]);
        FeedTurn(client, st, left, chunks[i..], before);
        assert chunks[i..][1..] == chunks[i + 1..];
        i := i + 1;
      }
    }
  }

  predicate ReportAsked(p: int, s: seq<Byte>) { true }

  /** One buffer of a feed, with the calls already made in front. */
  lemma FeedTurn(c: Client, st: State, left: seq<Byte>, chunks: seq<seq<Byte>>, before: seq<Event>)
    requires chunks != []
    ensures var o := Prepend(before, Drive(c, st, left + chunks[0], |chunks| > 1));
            Prepend(before, Feed(c, st, left, chunks)) ==
            if |chunks| == 1 || o.error.Some? then o else Prepend(o.events, Feed(c, o.st, o.left, chunks[1..]))
  {
    var o := Drive(c, st, left + chunks[0], |chunks| > 1);
    if |chunks| > 1 {
      PrependTwice(before, o.events, Feed(c, o.st, o.left, chunks[1..]));
    }
  }

  ghost predicate IsSuffix(left: seq<Byte>, s: seq<Byte>) {
    |left| <= |s| && left == s[|s| - |left|..]
  }

  lemma SuffixOf(left: seq<Byte>, s: seq<Byte>, n: nat)
    requires n <= |s| && IsSuffix(left, s[n..])
    ensures IsSuffix(left, s)
  {
  }

  /** The unread bytes are the end of what was handed over. */
  lemma {:induction false} Suffix(c: Client, st: State, s: seq<Byte>, more: bool)
    ensures Drive(c, st, s, more).error.None? ==> IsSuffix(Drive(c, st, s, more).left, s)
    decreases |s|
  {
    var r := OneTurn(c, st, s);
    if !st.mode.Epilog? && r.Next? {
      Suffix(c, r.st, s[r.n..], more);
      if Drive(c, st, s, more).error.None? {
        SuffixOf(Drive(c, st, s, more).left, s, r.n);
      }
    }
  }

  /** The loop ended with `error` after `events`. */
  ghost predicate Stopped(whole: Out, events: seq<Event>, error: Error) {
    whole.error == Some(error) && whole.events == events
  }

  /** One turn of the loop that `whole` is the outcome of. */
  lemma Advance(c: Client, whole: Out, events: seq<Event>, st: State, left: seq<Byte>, more: bool)
    requires whole == Prepend(events, Drive(c, st, left, more)) && !st.mode.Epilog?
    ensures var r := OneTurn(c, st, left);
            if r.Wait? then (if more then whole == Out(st, events, left, None) else Stopped(whole, events, r.error))
            else if r.Fail? then Stopped(whole, events, r.error)
            else whole == Prepend(events + r.events, Drive(c, r.st, left[r.n..], more))
  {
    var r := OneTurn(c, st, left);
    if r.Next? {
      PrependTwice(events, r.events, Drive(c, r.st, left[r.n..], more));
    }
  }
}
