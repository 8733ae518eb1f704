/** The push parser as the library has it: one object whose buffer is compacted and grown in place.
    `Value` is the state that module Multipart reasons about; `Parse` is proved to be `Run`. */
module MultipartParser {
  import opened Wrappers
  import opened Text
  import opened Multipart

  /** The server's side of the two callbacks. */
  class Upload {
    var files: seq<FormData>
    var fileCount: nat

    function Value(): Inbox
      reads this
    {
      Inbox(files, fileCount)
    }

    constructor ()
      ensures Value() == EMPTY_INBOX
    {
      files, fileCount := [], 0;
    }

    method OnHeader(file: FormData) returns (ok: bool)
      modifies this
      ensures ok == old(Value()).Accepts() && Value() == old(Value()).Open(file)
      ensures ok ==> files != []
    {
      var reached := fileCount == FILE_MAX_COUNT;
      fileCount := fileCount + 1;
      if reached { return false; }
      files := files + [file];
      return true;
    }

    method OnContent(data: string) returns (ok: bool)
      requires files != []
      modifies this
      ensures ok && Value() == old(Value()).Extend(data) && files != []
    {
      var last := files[|files| - 1];
      files := files[..|files| - 1] + [last.(content := last.content + data)];
      return true;
    }
  }

  class MultipartFormDataParser {
    var boundary: string
    var dashBoundaryCrlf: string
    var crlfDashBoundary: string
    var state: Phase
    var isValid: bool
    var file: FormData
    var buf: array<char>
    var spos: nat
    var epos: nat

    ghost predicate Valid()
      reads this
    {
      && spos <= epos <= buf.Length
      && dashBoundaryCrlf == Opening(boundary) && crlfDashBoundary == Delimiter(boundary)
    }

    function Pending(): string
      requires Valid()
      reads this, buf
    {
      buf[spos..epos]
    }

    function Value(): State
      requires Valid()
      reads this, buf
    {
      State(state, isValid, file, Pending())
    }

    constructor ()
      ensures Valid() && Value() == START && fresh(buf)
    {
      boundary, dashBoundaryCrlf, crlfDashBoundary := "", Opening(""), Delimiter("");
      state, isValid, file := 0, false, NO_FILE;
      buf, spos, epos := new char[0], 0, 0;
    }

    method SetBoundary(b: string)
      requires Valid()
      modifies this
      ensures Valid() && boundary == b && Value() == old(Value()) && buf == old(buf)
    {
      boundary := b;
      dashBoundaryCrlf := "--" + boundary + CRLF;
      crlfDashBoundary := CRLF + "--" + boundary;
    }

    // ----- the buffer

    method StartWith(pos: nat, s: string) returns (r: bool)
      requires Valid() && spos <= pos <= epos
      ensures r <==> OccursAt(Pending(), s, pos - spos)
    {
      if epos - pos < |s| { return false; }
      ghost var t := Pending()[pos - spos..pos - spos + |s|];
      assert forall k :: 0 <= k < |s| ==> t[k] == buf[pos + k];
      for i := 0 to |s|
        invariant forall k :: 0 <= k < i ==> buf[pos + k] == s[k]
      {
        if buf[pos + i] != s[i] { return false; }
      }
      assert t == s;
      return true;
    }

    /** `buf_find`: jump to the next byte that can start a match, then compare. */
    method BufFind(s: string) returns (r: nat)
      requires Valid() && s != ""
      ensures r == Find(Pending(), s)
    {
      hide Find;
      var c := s[0];
      var off := spos;
      ghost var t := Pending();
      while off < epos
        invariant spos <= off <= epos
        invariant forall j: nat :: j < off - spos ==> !OccursAt(t, s, j)
      {
        var pos := off;
        while pos != epos && buf[pos] != c
          invariant off <= pos <= epos
          invariant forall j: nat :: j < pos - spos ==> !OccursAt(t, s, j)
          decreases epos - pos
        {
          FirstDiffers(t, s, pos - spos);
          pos := pos + 1;
        }
        if pos == epos {
          FindNone(t, s);
          return epos - spos;
        }
        if |s| > epos - pos {
          TooShort(t, s, pos - spos);
          FindNone(t, s);
          return epos - spos;
        }
        var found := StartWith(pos, s);
        if found {
          FindIs(t, s, pos - spos);
          return pos - spos;
        }
        off := pos + 1;
      }
      FindNone(t, s);
      return epos - spos;
    }

    static lemma FirstDiffers(t: string, s: string, j: nat)
      requires s != "" && j < |t| && t[j] != s[0]
      ensures !OccursAt(t, s, j)
    {
      assert j + |s| <= |t| ==> t[j..j + |s|][0] == t[j];
    }

    static lemma TooShort(t: string, s: string, i: nat)
      requires i + |s| > |t| && forall j: nat :: j < i ==> !OccursAt(t, s, j)
      ensures forall j: nat :: j < |t| ==> !OccursAt(t, s, j)
    {
    }

    /** Move the unread bytes to the front of the buffer, in place. */
    method Compact()
      requires Valid()
      modifies this`spos, this`epos, buf
      ensures Valid() && spos == 0 && Pending() == old(Pending())
    {
      var remaining := epos - spos;
      ghost var unread := Pending();
      if remaining > 0 && spos > 0 {
        var b := buf;
        for i := 0 to remaining
          modifies b
          invariant forall k :: 0 <= k < i ==> b[k] == unread[k]
          invariant forall k :: i <= k < remaining ==> b[spos + k] == unread[k]
        {
          b[i] := b[spos + i];
        }
      }
      spos, epos := 0, remaining;
    }

    /** Make room for `size` bytes; a larger buffer replaces the old one. */
    method Reserve(size: nat)
      requires Valid()
      modifies this`buf
      ensures Valid() && Pending() == old(Pending()) && size <= buf.Length
      ensures buf == old(buf) || fresh(buf)
    {
      if size > buf.Length {
        var bigger := new char[size];
        for i := 0 to buf.Length
          modifies bigger
          invariant forall k :: 0 <= k < i ==> bigger[k] == buf[k]
        {
          bigger[i] := buf[i];
        }
        buf := bigger;
      }
    }

    /** `buf_append`: the new bytes go behind the unread ones. */
    method BufAppend(data: string)
      requires Valid()
      modifies this`spos, this`epos, this`buf, buf
      ensures Valid() && Pending() == old(Pending()) + data
      ensures buf == old(buf) || fresh(buf)
    {
      Compact();
      Reserve(epos + |data|);
      ghost var all := Pending() + data;
      var b := buf;
      for i := 0 to |data|
        modifies b
        invariant forall k :: 0 <= k < epos + i ==> b[k] == all[k]
      {
        b[epos + i] := data[i];
      }
      epos := epos + |data|;
      assert Pending() == all;
    }

    /** `buf_erase` */
    method BufErase(size: nat)
      requires Valid() && size <= epos - spos
      modifies this`spos
      ensures Valid() && Pending() == old(Pending())[size..]
    {
      Slices(buf[..], spos, epos, size);
      spos := spos + size;
    }

    /** `buf_head` */
    method BufHead(l: nat) returns (r: string)
      requires Valid() && l <= epos - spos
      ensures r == Pending()[..l]
    {
      Slices(buf[..], spos, epos, l);
      return buf[spos..spos + l];
    }

    static lemma Slices(s: string, lo: nat, hi: nat, n: nat)
      requires lo + n <= hi <= |s|
      ensures s[lo..hi][..n] == s[lo..lo + n] && s[lo..hi][n..] == s[lo + n..hi]
    {
    }

    // ----- one turn of the loop; `go` means round again, otherwise `parse` returns `ok`

    /** What the search found is in front once everything before it has been erased. */
    static lemma FoundInFront(s: string, pat: string)
      requires pat != ""
      ensures var t := s[Find(s, pat)..]; |pat| <= |t| ==> OccursAt(t, pat, 0)
    {
      var i := Find(s, pat);
      assert i + |pat| <= |s| ==> s[i..][0..0 + |pat|] == s[i..i + |pat|];
    }

    static lemma StartUnfold(b: string, p: State, inbox: Inbox)
      ensures var s := p.pending[Find(p.pending, Opening(b))..];
              Start(b, p, inbox)
              == if |Opening(b)| > |s| then Return(true, State(p.phase, p.valid, p.file, s), inbox)
                 else Go(State(1, p.valid, p.file, s[|Opening(b)|..]), inbox)
    {
      hide Find;
    }

    method OpeningLine(ghost inbox: Inbox) returns (go: bool, ok: bool)
      requires Valid() && state == 0
      modifies this`spos, this`state
      ensures Valid()
      ensures Start(boundary, old(Value()), inbox) == if go then Go(Value(), inbox) else Return(ok, Value(), inbox)
      ensures go || state == 0
    {
      hide Find, OccursAt, Opening, Start;
      StartUnfold(boundary, Value(), inbox);
      ghost var s := Pending();
      var pos := BufFind(dashBoundaryCrlf);
      BufErase(pos);
      if |dashBoundaryCrlf| > epos - spos { return false, true; }
      var found := StartWith(spos, dashBoundaryCrlf);
      FoundInFront(s, dashBoundaryCrlf);
      assert found;
      BufErase(|dashBoundaryCrlf|);
      state := 1;
      return true, true;
    }

    /** How the next line, if there is one, decides what the header phase does. */
    static lemma HeadersUnfold(p: State, inbox: Inbox, pos: nat)
      requires pos == Find(p.pending, CRLF)
      ensures pos == |p.pending| ==> Headers(p, inbox) == Return(true, p, inbox)
      ensures pos == 0 < |p.pending| && inbox.Accepts() ==>
                Headers(p, inbox) == Go(State(3, p.valid, p.file, p.pending[2..]), inbox.Open(p.file))
      ensures pos == 0 < |p.pending| && !inbox.Accepts() ==>
                Headers(p, inbox) == Return(false, State(p.phase, false, p.file, p.pending), inbox.Open(p.file))
      ensures 0 < pos < |p.pending| ==>
                var h := ReadHeader(p.file, p.pending[..pos]);
                Headers(p, inbox)
                == if h.ok then Headers(State(p.phase, p.valid, h.file, p.pending[pos + 2..]), inbox)
                   else Return(false, State(p.phase, false, h.file, p.pending), inbox)
    {
    }

    /** One line of the header phase: `more` when there may be another. */
    method HeaderLine(pos: nat, upload: Upload) returns (more: bool, go: bool)
      requires Valid() && state == 2 && pos == Find(Pending(), CRLF) < |Pending()|
      modifies this`spos, this`file, this`isValid, this`state, upload
      ensures Valid() && epos - spos <= old(epos - spos)
      ensures more ==> && state == 2 && epos - spos < old(epos - spos) && upload.Value() == old(upload.Value())
                       && Headers(Value(), upload.Value()) == Headers(old(Value()), old(upload.Value()))
      ensures !more ==> Headers(old(Value()), old(upload.Value()))
                        == if go then Go(Value(), upload.Value()) else Return(false, Value(), upload.Value())
      ensures !more && go ==> state == 3 && upload.files != []
      ensures !more && !go ==> state == 2
    {
      hide Find, ReadHeader, Headers, Inbox.Open;
      ghost var s := Pending();
      HeadersUnfold(Value(), upload.Value(), pos);
      if pos == 0 {
        var accepted := upload.OnHeader(file);
        if !accepted {
          isValid := false;
          return false, false;
        }
        BufErase(2);
        state := 3;
        return false, true;
      }
      var header := BufHead(pos);
      var h := ReadHeader(file, header);
      file := h.file;
      if !h.ok {
        isValid := false;
        return false, false;
      }
      BufErase(pos + 2);
      return true, false;
    }

    method HeaderLines(upload: Upload) returns (go: bool, ok: bool)
      requires Valid() && state == 2
      modifies this`spos, this`file, this`isValid, this`state, upload
      ensures Valid()
      ensures Step(boundary, old(Value()), old(upload.Value()))
              == if go then Go(Value(), upload.Value()) else Return(ok, Value(), upload.Value())
      ensures go ==> state == 3 && upload.files != []
      ensures !go ==> state == 2
    {
      hide Find, Headers;
      var pos := BufFind(CRLF);
      if pos > HEADER_MAX_LENGTH { return false, false; }
      while pos < epos - spos
        invariant Valid() && state == 2
        invariant upload.Value() == old(upload.Value())
        invariant pos == Find(Pending(), CRLF)
        invariant Headers(Value(), upload.Value()) == Headers(old(Value()), old(upload.Value()))
        decreases epos - spos
      {
        var more;
        more, go := HeaderLine(pos, upload);
        if !more { return go, go; }
        pos := BufFind(CRLF);
      }
      HeadersUnfold(Value(), upload.Value(), pos);
      return false, true;
    }

    method BodyBytes(upload: Upload) returns (go: bool, ok: bool)
      requires Valid() && state == 3 && upload.files != []
      modifies this`spos, this`state, upload
      ensures Valid()
      ensures Body(crlfDashBoundary, old(Value()), old(upload.Value()))
              == if go then Go(Value(), upload.Value()) else Return(ok, Value(), upload.Value())
      ensures go || (state == 3 && upload.files != [])
      ensures go ==> state == 4
    {
      hide Find, Delimiter, Inbox.Extend;
      ghost var s := Pending();
      if |crlfDashBoundary| > epos - spos { return false, true; }
      var pos := BufFind(crlfDashBoundary);
      if pos < epos - spos {
        var content := BufHead(pos);
        var accepted := upload.OnContent(content);
        BufErase(pos + |crlfDashBoundary|);
        state := 4;
        return true, true;
      }
      var len := epos - spos - |crlfDashBoundary|;
      if len > 0 {
        var content := BufHead(len);
        var accepted := upload.OnContent(content);
        BufErase(len);
      }
      assert len == 0 ==> s[len..] == s;
      return false, true;
    }

    static lemma BoundaryUnfold(p: State, inbox: Inbox)
      ensures |p.pending| < 2 ==> Boundary(p, inbox) == Return(true, p, inbox)
      ensures CRLF <= p.pending ==> Boundary(p, inbox) == Go(State(1, p.valid, p.file, p.pending[2..]), inbox)
      ensures |p.pending| >= 2 && !(CRLF <= p.pending) ==>
                Boundary(p, inbox)
                == if "--" <= p.pending then Go(State(p.phase, true, p.file, ""), inbox) else Return(true, p, inbox)
    {
    }

    static lemma InFront(s: string, two: string)
      requires |two| == 2
      ensures OccursAt(s, two, 0) <==> two <= s
    {
      assert |s| >= 2 ==> s[0..0 + 2] == s[..2];
    }

    method AfterDelimiter(ghost inbox: Inbox) returns (go: bool, ok: bool)
      requires Valid() && state == 4
      modifies this`spos, this`state, this`isValid
      ensures Valid()
      ensures Boundary(old(Value()), inbox) == if go then Go(Value(), inbox) else Return(ok, Value(), inbox)
      ensures state == 4 || state == 1
    {
      hide Boundary, OccursAt;
      ghost var s := Pending();
      BoundaryUnfold(Value(), inbox);
      InFront(s, CRLF);
      InFront(s, "--");
      if 2 > epos - spos { return false, true; }
      var crlf := StartWith(spos, CRLF);
      if crlf {
        BufErase(2);
        state := 1;
        return true, true;
      }
      var dash := StartWith(spos, "--");
      if dash {
        BufErase(2);
        isValid := true;
        BufErase(epos - spos);
        return true, true;
      }
      return false, true;
    }

    method Turn(upload: Upload) returns (go: bool, ok: bool)
      requires Valid() && spos < epos && (state == 3 ==> upload.files != [])
      modifies this`spos, this`file, this`isValid, this`state, upload
      ensures Valid()
      ensures Step(boundary, old(Value()), old(upload.Value()))
              == if go then Go(Value(), upload.Value()) else Return(ok, Value(), upload.Value())
      ensures state == 3 ==> upload.files != []
    {
      hide Find, Start, Body, Boundary;
      if state == 0 {
        go, ok := OpeningLine(upload.Value());
      } else if state == 1 {
        file := NO_FILE;
        state := 2;
        go, ok := true, true;
      } else if state == 2 {
        go, ok := HeaderLines(upload);
      } else if state == 3 {
        go, ok := BodyBytes(upload);
      } else {
        go, ok := AfterDelimiter(upload.Value());
      }
    }

    /** `parse`: append the new bytes and run the state machine as far as they allow. */
    method Parse(data: string, upload: Upload) returns (ok: bool)
      requires Valid() && (state == 3 ==> upload.files != [])
      modifies this, buf, upload
      ensures Valid() && boundary == old(boundary) && (state == 3 ==> upload.files != [])
      ensures buf == old(buf) || fresh(buf)
      ensures Return(ok, Value(), upload.Value())
              == Run(boundary, Feed(old(Value()), data), old(upload.Value()))
    {
      hide Step;
      BufAppend(data);
      ghost var p := Value();
      assert p == Feed(old(Value()), data);
      while spos < epos
        invariant Valid() && boundary == old(boundary) && (state == 3 ==> upload.files != [])
        invariant buf == old(buf) || fresh(buf)
        invariant Run(boundary, Value(), upload.Value()) == Run(boundary, p, old(upload.Value()))
        decreases epos - spos, if state == 1 then 1 else 0
      {
        var go;
        go, ok := Turn(upload);
        if !go { return; }
      }
      return true;
    }
  }

  /** A multipart request body as the server reads it: one `parse` per chunk that comes off the
      connection, stopping at the first refusal; the request is good if the parser ends valid. */
  method ReadMultipart(boundary: string, chunks: seq<string>) returns (good: bool, files: seq<FormData>)
    ensures var f := ParseAll(boundary, START, EMPTY_INBOX, chunks);
            good == (f.ok && f.p.valid) && files == f.inbox.files
  {
    hide Run;
    var upload := new Upload();
    var parser := new MultipartFormDataParser();
    parser.SetBoundary(boundary);
    var i := 0;
    while i < |chunks|
      invariant 0 <= i <= |chunks|
      invariant fresh(upload) && fresh(parser) && fresh(parser.buf)
      invariant parser.Valid() && parser.boundary == boundary && (parser.state == 3 ==> upload.files != [])
      invariant ParseAll(boundary, parser.Value(), upload.Value(), chunks[i..])
                == ParseAll(boundary, START, EMPTY_INBOX, chunks)
    {
      var ok := parser.Parse(chunks[i], upload);
      assert chunks[i..][1..] == chunks[i + 1..];
      if !ok { return false, upload.files; }
      i := i + 1;
    }
    return parser.isValid, upload.files;
  }
}
