/**
 `parse_url` and `parse_headers` of yotta.cpp: which response a parsed request is answered with, given what the file
 system says of a name and `strptime` of a text.
 */
module Requests {
  import opened Bytes
  import opened Scanner
  import opened Message
  import opened Ranges
  import opened Responses
  import Grammar
  import P = Paths
  import U = UrlResolution

  /** The contents of a file; sizes are those of `off_t`. */
  type FileBytes = s: seq<byte> | |s| < 0x8000_0000_0000_0000

  /** `strftime` is given 512 bytes. */
  type Date = t: seq<byte> | |t| < 512

  type TypeName = t: seq<byte> | |t| <= 80

  /** What `fstat` says of a regular file, with `st_mtime` also as it is printed. */
  datatype File = File(content: FileBytes, date: Date, mtime: int)

  /**
   The regular files `open` finds, by name, and the texts that start with a date, with that date; `strptime` returns
   NULL for all others.
   */
  datatype World = World(files: map<seq<byte>, File>, stamps: map<seq<byte>, int>)

  datatype Answer =
    | Malformed
    | NotFound
    | BadField(file: File)
    | NotModified(file: File)
    | Whole(file: File, contentType: TypeName)
    | Ranged(file: File, first: SizeT, last: int)
    | Thrown

  // ---------- parse_url ----------

  // The longest type, in three parts.
  const VENDOR: seq<byte> := "application/vnd."
  const OFFICE: seq<byte> := "openxmlformats-officedocument"
  const WORDPROCESSING: seq<byte> := ".wordprocessingml.document"

  /** `mime_types`. */
  function MimeType(extension: seq<byte>): Option<TypeName> {
    if extension == ".html" then Some("text/html")
    else if extension == ".css" then Some("text/css")
    else if extension == ".png" then Some("image/png")
    else if extension == ".jpg" then Some("image/jpeg")
    else if extension == ".jpeg" then Some("image/jpeg")
    else if extension == ".svg" then Some("image/svg+xml")
    else if extension == ".gif" then Some("image/gif")
    else if extension == ".ico" then Some("image/x-icon")
    else if extension == ".txt" then Some("text/plain")
    else ApplicationType(extension)
  }

  function ApplicationType(extension: seq<byte>): Option<TypeName> {
    if extension == ".doc" then Some("application/msword")
    else if extension == ".docx" then Some(VENDOR + OFFICE + WORDPROCESSING)
    else if extension == ".csv" then Some("text/csv")
    else if extension == ".js" then Some("application/x-javascript")
    else if extension == ".json" then Some("application/json")
    else if extension == ".pdf" then Some("application/pdf")
    else if extension == ".zip" then Some("application/zip")
    else if extension == ".gz" then Some("application/gzip")
    else if extension == ".woff" then Some("application/font-woff")
    else if extension == ".woff2" then Some("application/font-woff2")
    else if extension == ".opus" then Some("audio/opus")
    else if extension == ".mp4" then Some("video/mp4")
    else if extension == ".mpeg" then Some("video/mpeg")
    else if extension == ".mpg" then Some("video/mpeg")
    else if extension == ".mp3" then Some("audio/mpeg")
    else None
  }

  /** `rfind`. */
  function LastIndex(t: seq<byte>, c: byte): (r: Option<nat>)
    ensures r.Some? ==> r.value < |t| && t[r.value] == c && forall k | r.value < k < |t| :: t[k] != c
    ensures r.None? ==> forall k | 0 <= k < |t| :: t[k] != c
    decreases |t|
  {
    if t == [] then None else if t[|t| - 1] == c then Some(|t| - 1) else LastIndex(t[..|t| - 1], c)
  }

  /** The type that goes with the extension of the last component; a name without a slash has none. */
  function ContentType(name: seq<byte>): TypeName {
    var dot, slash := LastIndex(name, '.'), LastIndex(name, '/');
    if dot.Some? && slash.Some? && slash.value < dot.value && MimeType(name[dot.value..]).Some? then
      MimeType(name[dot.value..]).value
    else "text/plain"
  }

  predicate Without(t: seq<byte>, c: byte) {
    forall k | 0 <= k < |t| :: t[k] != c
  }

  lemma {:induction false} LastIndexAt(t: seq<byte>, c: byte, j: nat)
    requires j < |t| && t[j] == c && forall k | j < k < |t| :: t[k] != c
    ensures LastIndex(t, c) == Some(j)
    decreases |t|
  {
    if j < |t| - 1 {
      LastIndexAt(t[..|t| - 1], c, j);
    }
  }

  /** The type of a file goes by what stands behind the last dot of its last component. */
  lemma TypeOf(dir: seq<byte>, base: seq<byte>, ext: seq<byte>)
    requires Without(base, '/') && Without(ext, '/') && Without(ext, '.')
    ensures ContentType(dir + ("/" + (base + ("." + ext))))
            == if MimeType("." + ext).Some? then MimeType("." + ext).value else "text/plain"
  {
    hide MimeType;
    var name := dir + ("/" + (base + ("." + ext)));
    var i, j := |dir|, |dir| + 1 + |base|;
    assert name[i] == '/' && name[j] == '.';
    forall k | i < k < |name| ensures name[k] != '/' {
      assert k < j ==> name[k] == base[k - i - 1];
      assert k > j ==> name[k] == ext[k - j - 1];
    }
    forall k | j < k < |name| ensures name[k] != '.' {
      assert name[k] == ext[k - j - 1];
    }
    LastIndexAt(name, '/', i);
    LastIndexAt(name, '.', j);
    assert name[j..] == "." + ext;
  }

  /** A dot before the last slash is not that of an extension. */
  lemma NoExtension(dir: seq<byte>, base: seq<byte>)
    requires Without(base, '/') && Without(base, '.')
    ensures ContentType(dir + ("/" + base)) == "text/plain"
  {
    hide MimeType;
    var name := dir + ("/" + base);
    var i := |dir|;
    assert name[i] == '/';
    forall k | i < k < |name| ensures name[k] != '/' && name[k] != '.' {
      assert name[k] == base[k - i - 1];
    }
    LastIndexAt(name, '/', i);
  }

  /** A file that was found, and the type it is served as. */
  datatype Found = Found(file: File, contentType: TypeName)

  /** The file a path leads to. Its type goes by the resolved name, not by the one that is opened. */
  function Locate(w: World, path: seq<byte>): Option<Found> {
    var q := path[..U.Query(path)];
    if !U.Fits(q) || U.Opened(q) !in w.files then None
    else Some(Found(w.files[U.Opened(q)], ContentType(U.Resolved(q))))
  }

  /** What is located is what is opened for the part of the path before its first question mark. */
  lemma LocateExact(w: World, q: seq<byte>, query: seq<byte>)
    requires Without(q, '?') && (query == [] || query[0] == '?')
    ensures Locate(w, q + query)
            == if q == [] || |q| > 1004 || U.Opened(q) !in w.files then None
               else Some(Found(w.files[U.Opened(q)], ContentType(U.Resolved(q))))
  {
    hide U.Opened, U.Resolved, ContentType;
    var path := q + query;
    var n := U.Query(path);
    assert forall k | 0 <= k < |q| :: path[k] == q[k] != '?';
    assert query != [] ==> path[|q|] == '?';
    assert path[..|q|] == q;
  }

  // ---------- parse_headers ----------

  const IF_MODIFIED_SINCE: seq<byte> := "If-Modified-Since"
  const RANGE: seq<byte> := "Range"

  predicate HeaderIn(h: Header, n: nat) {
    && (h.name.Some? ==> h.name.value.from <= h.name.value.to <= n)
    && h.value.from <= h.value.to <= n
  }

  predicate HeadersIn(hs: seq<Header>, n: nat) {
    forall k | 0 <= k < |hs| :: HeaderIn(hs[k], n)
  }

  /** The name of an entry, which a continuation line has not. */
  function NameText(buf: seq<byte>, h: Header): seq<byte>
    requires HeaderIn(h, |buf|)
  {
    if h.name.Some? then Text(buf, h.name.value) else []
  }

  /** `handle_if_modified_since`. `strptime` reads on behind the value. */
  function SinceAnswer(w: World, rest: seq<byte>, file: File): Option<Answer> {
    if rest !in w.stamps then Some(BadField(file))
    else if w.stamps[rest] >= file.mtime then Some(NotModified(file))
    else None
  }

  /** `handle_range`. */
  function RangeAnswerOf(value: seq<byte>, file: File): Answer {
    match HandleRange(value, |file.content|)
    case BadRange => BadField(file)
    case Throws => Thrown
    case Partial(first, last) => Ranged(file, first, last)
  }

  /** What one entry decides, if it decides. */
  function FieldAnswer(w: World, buf: seq<byte>, h: Header, file: File): (r: Option<Answer>)
    requires HeaderIn(h, |buf|)
  {
    if NameText(buf, h) == IF_MODIFIED_SINCE then SinceAnswer(w, buf[h.value.from..], file)
    else if NameText(buf, h) == RANGE then Some(RangeAnswerOf(Text(buf, h.value), file))
    else None
  }

  function FieldsAnswer(w: World, buf: seq<byte>, hs: seq<Header>, found: Found): Answer
    requires HeadersIn(hs, |buf|)
    decreases |hs|
  {
    if hs == [] then Whole(found.file, found.contentType) else
    var a := FieldAnswer(w, buf, hs[0], found.file);
    if a.Some? then a.value else FieldsAnswer(w, buf, hs[1..], found)
  }

  lemma FieldsStep(w: World, buf: seq<byte>, hs: seq<Header>, i: nat, found: Found)
    requires HeadersIn(hs, |buf|) && i < |hs|
    ensures HeaderIn(hs[i], |buf|) && HeadersIn(hs[i..], |buf|) && HeadersIn(hs[i + 1..], |buf|)
    ensures var a := FieldAnswer(w, buf, hs[i], found.file);
            FieldsAnswer(w, buf, hs[i..], found)
            == if a.Some? then a.value else FieldsAnswer(w, buf, hs[i + 1..], found)
  {
    assert hs[i..][0] == hs[i] && hs[i..][1..] == hs[i + 1..];
  }

  lemma FieldsEnd(w: World, buf: seq<byte>, hs: seq<Header>, found: Found)
    requires hs == []
    ensures FieldsAnswer(w, buf, hs, found) == Whole(found.file, found.contentType)
  {
  }

  /**
   The answer is that of the first entry that decides: a range always does, a date only when the file is not newer or
   it cannot be read. If none does it is the whole file.
   */
  lemma {:induction false} FirstDecides(w: World, buf: seq<byte>, hs: seq<Header>, found: Found)
    requires HeadersIn(hs, |buf|)
    ensures var a := FieldsAnswer(w, buf, hs, found);
            || (a == Whole(found.file, found.contentType)
                && forall k | 0 <= k < |hs| :: FieldAnswer(w, buf, hs[k], found.file).None?)
            || exists k :: 0 <= k < |hs| && FieldAnswer(w, buf, hs[k], found.file) == Some(a)
                           && forall j | 0 <= j < k :: FieldAnswer(w, buf, hs[j], found.file).None?
    decreases |hs|
  {
    hide FieldAnswer;
    if hs != [] {
      var a := FieldAnswer(w, buf, hs[0], found.file);
      if a.None? {
        var t := hs[1..];
        FirstDecides(w, buf, t, found);
        var b := FieldsAnswer(w, buf, t, found);
        if k :| 0 <= k < |t| && FieldAnswer(w, buf, t[k], found.file) == Some(b)
                && forall j | 0 <= j < k :: FieldAnswer(w, buf, t[j], found.file).None? {
          forall j | 0 <= j < k + 1 ensures FieldAnswer(w, buf, hs[j], found.file).None? {
            if j > 0 {
              assert hs[j] == t[j - 1];
            }
          }
          assert FieldAnswer(w, buf, hs[k + 1], found.file) == Some(b);
        } else {
          forall k | 0 <= k < |hs| ensures FieldAnswer(w, buf, hs[k], found.file).None? {
            if k > 0 {
              assert hs[k] == t[k - 1];
            }
          }
        }
      } else {
        assert FieldAnswer(w, buf, hs[0], found.file) == Some(FieldsAnswer(w, buf, hs, found));
      }
    }
  }

  predicate Named(buf: seq<byte>, h: Header, name: seq<byte>)
    requires HeaderIn(h, |buf|)
  {
    h.name.Some? && buf[h.name.value.from..h.name.value.to] == name
  }

  /** The time `strptime` reads where the value of an entry starts, if it reads any. */
  function StampOf(w: World, buf: seq<byte>, h: Header): Option<int>
    requires HeaderIn(h, |buf|)
  {
    if buf[h.value.from..] in w.stamps then Some(w.stamps[buf[h.value.from..]]) else None
  }

  /** An entry decides if it asks for a range, or for changes since a time unreadable or not before that of the file. */
  predicate Decides(w: World, buf: seq<byte>, h: Header, file: File)
    requires HeaderIn(h, |buf|)
  {
    || Named(buf, h, "Range")
    || (Named(buf, h, "If-Modified-Since") && (StampOf(w, buf, h).Some? ==> StampOf(w, buf, h).value >= file.mtime))
  }

  /** What an entry answers, by its name as it is written. */
  lemma FieldExact(w: World, buf: seq<byte>, h: Header, file: File)
    requires HeaderIn(h, |buf|)
    ensures FieldAnswer(w, buf, h, file)
            == if !Decides(w, buf, h, file) then None
               else if Named(buf, h, "If-Modified-Since") then
                 Some(if StampOf(w, buf, h).None? then BadField(file) else NotModified(file))
               else
                 match HandleRange(buf[h.value.from..h.value.to], |file.content|)
                 case BadRange => Some(BadField(file))
                 case Throws => Some(Thrown)
                 case Partial(first, last) => Some(Ranged(file, first, last))
  {
    hide HandleRange;
    NotRange();
  }

  lemma NotRange()
    ensures IF_MODIFIED_SINCE != RANGE && RANGE != [] && IF_MODIFIED_SINCE != []
  {
    assert |RANGE| == 5 && |IF_MODIFIED_SINCE| == 17;
  }

  /** Entry `k` is the first that decides. */
  ghost predicate FirstDecider(w: World, buf: seq<byte>, hs: seq<Header>, file: File, k: nat)
    requires HeadersIn(hs, |buf|) && k < |hs|
  {
    Decides(w, buf, hs[k], file) && forall j | 0 <= j < k :: !Decides(w, buf, hs[j], file)
  }

  lemma DeciderAnswers(w: World, buf: seq<byte>, hs: seq<Header>, found: Found, k: nat)
    requires HeadersIn(hs, |buf|) && k < |hs| && FirstDecider(w, buf, hs, found.file, k)
    ensures FieldAnswer(w, buf, hs[k], found.file) == Some(FieldsAnswer(w, buf, hs, found))
    decreases k
  {
    hide FieldAnswer, Decides;
    FieldExact(w, buf, hs[0], found.file);
    FieldExact(w, buf, hs[k], found.file);
    if k > 0 {
      var t := hs[1..];
      assert t[k - 1] == hs[k];
      forall j | 0 <= j < k - 1 ensures !Decides(w, buf, t[j], found.file) {
        assert t[j] == hs[j + 1];
      }
      DeciderAnswers(w, buf, t, found, k - 1);
    }
  }

  /**
   The file is answered as not modified exactly when the first entry that decides is an If-Modified-Since whose time is
   that of the file or later; and whole exactly when none decides.
   */
  lemma NotModifiedExactly(w: World, buf: seq<byte>, hs: seq<Header>, found: Found)
    requires HeadersIn(hs, |buf|)
    ensures FieldsAnswer(w, buf, hs, found) == NotModified(found.file) <==>
              exists k :: 0 <= k < |hs| && FirstDecider(w, buf, hs, found.file, k)
                          && Named(buf, hs[k], "If-Modified-Since") && StampOf(w, buf, hs[k]).Some?
    ensures FieldsAnswer(w, buf, hs, found) == Whole(found.file, found.contentType) <==>
              forall k | 0 <= k < |hs| :: !Decides(w, buf, hs[k], found.file)
  {
    hide FieldAnswer, Decides, FieldsAnswer, StampOf, Named, HandleRange;
    var a := FieldsAnswer(w, buf, hs, found);
    forall k | 0 <= k < |hs|
      ensures FieldAnswer(w, buf, hs[k], found.file).None? <==> !Decides(w, buf, hs[k], found.file)
    {
      FieldExact(w, buf, hs[k], found.file);
    }
    forall k | 0 <= k < |hs| && FirstDecider(w, buf, hs, found.file, k)
      ensures FieldAnswer(w, buf, hs[k], found.file) == Some(a)
    {
      DeciderAnswers(w, buf, hs, found, k);
    }
    FirstDecides(w, buf, hs, found);
    if k :| 0 <= k < |hs| && FieldAnswer(w, buf, hs[k], found.file) == Some(a)
            && forall j | 0 <= j < k :: FieldAnswer(w, buf, hs[j], found.file).None? {
      FieldExact(w, buf, hs[k], found.file);
      assert FirstDecider(w, buf, hs, found.file, k);
      forall j | 0 <= j < |hs| && FirstDecider(w, buf, hs, found.file, j) ensures j == k {
      }
    }
  }

  /** Every answer is about the file that was found. */
  lemma {:induction false} AnswersFile(w: World, buf: seq<byte>, hs: seq<Header>, found: Found)
    requires HeadersIn(hs, |buf|)
    ensures match FieldsAnswer(w, buf, hs, found)
            case Whole(file, ct) => Found(file, ct) == found
            case Ranged(file, _, _) => file == found.file
            case NotModified(file) => file == found.file
            case BadField(file) => file == found.file
            case Thrown => true
            case _ => false
    decreases |hs|
  {
    hide HandleRange, NameText;
    if hs != [] && FieldAnswer(w, buf, hs[0], found.file).None? {
      AnswersFile(w, buf, hs[1..], found);
    }
  }

  // ---------- The answer ----------

  lemma {:induction false} OrderedIn(hs: seq<Header>, lo: nat, hi: nat)
    requires Grammar.InOrder(hs, lo, hi)
    ensures HeadersIn(hs, hi) && lo <= hi + |hs|
    decreases |hs|
  {
    if hs != [] {
      OrderedIn(hs[1..], hs[0].value.to + 1, hi);
      ValueBefore(hs, lo, hi);
      forall k | 0 <= k < |hs| ensures HeaderIn(hs[k], hi) {
        if k > 0 {
          assert hs[k] == hs[1..][k - 1];
        }
      }
    }
  }

  lemma {:induction false} ValueBefore(hs: seq<Header>, lo: nat, hi: nat)
    requires Grammar.InOrder(hs, lo, hi)
    ensures lo <= hi
    decreases |hs|
  {
    if hs != [] {
      ValueBefore(hs[1..], hs[0].value.to + 1, hi);
    }
  }

  /** The slices of a request that was parsed lie in the bytes that were parsed. */
  lemma ParsedIn(s: seq<byte>, cap: nat)
    requires ParseRequest(s, cap).end.Done?
    ensures var p := ParseRequest(s, cap);
            && HeadersIn(p.headers, |s|)
            && p.end.value.path.from <= p.end.value.path.to <= |s|
  {
    hide ParseRequest, HeadersIn;
    Grammar.RequestSlices(s, cap);
    var p := ParseRequest(s, cap);
    OrderedIn(p.headers, p.end.value.path.to + 1, p.end.pos);
    ValueBefore(p.headers, p.end.value.path.to + 1, p.end.pos);
    InMore(p.headers, p.end.pos, |s|);
  }

  lemma InMore(hs: seq<Header>, n: nat, m: nat)
    requires HeadersIn(hs, n) && n <= m
    ensures HeadersIn(hs, m)
  {
  }

  /** A parse that can be answered: its slices lie in the buffer. */
  predicate Within(p: Parse<RequestLine>, n: nat) {
    p.end.Done? ==>
      HeadersIn(p.headers, n) && p.end.value.path.from <= p.end.value.path.to <= n
  }

  /** The answer to a request for this path with these header entries. */
  function AnswerAbout(w: World, buf: seq<byte>, hs: seq<Header>, path: Slice): Answer
    requires HeadersIn(hs, |buf|) && path.from <= path.to <= |buf|
  {
    var found := Locate(w, Text(buf, path));
    if found.None? then NotFound else FieldsAnswer(w, buf, hs, found.value)
  }

  /** What `read_callback_http` answers to a parse, and whether it does. */
  function Decide(w: World, buf: seq<byte>, p: Parse<RequestLine>): Option<Answer>
    requires Within(p, |buf|)
  {
    match p.end
    case More => None
    case Bad => Some(Malformed)
    case Done(_, line) => Some(AnswerAbout(w, buf, p.headers, line.path))
  }

  /**
   400 for the request as a whole is the answer to a parse that failed and to no other, 404 that to a parsed request
   whose path is empty or too long or leads to no file, and there is no answer exactly while the parser wants more.
   */
  lemma DecideExact(w: World, buf: seq<byte>, p: Parse<RequestLine>, q: seq<byte>, query: seq<byte>)
    requires Within(p, |buf|)
    requires p.end.Done? ==> buf[p.end.value.path.from..p.end.value.path.to] == q + query
    requires Without(q, '?') && (query == [] || query[0] == '?')
    ensures Decide(w, buf, p).None? <==> p.end.More?
    ensures Decide(w, buf, p) == Some(Malformed) <==> p.end.Bad?
    ensures Decide(w, buf, p) == Some(NotFound) <==>
              p.end.Done? && (q == [] || |q| > 1004 || U.Opened(q) !in w.files)
  {
    hide FieldsAnswer, Locate, HeadersIn;
    LocateExact(w, q, query);
    if p.end.Done? {
      var found := Locate(w, q + query);
      if found.Some? {
        AnswersFile(w, buf, p.headers, found.value);
      }
    }
  }

  // ---------- What may be opened ----------

  /** A path that the parser let through has no NUL, so that what is opened is what `UrlResolution` says. */
  lemma PathNulFree(s: seq<byte>, cap: nat)
    requires ParseRequest(s, cap).end.Done?
    ensures var t := ParseRequest(s, cap).end.value.path;
            t.from <= t.to <= |s| && U.NulFree(Text(s, t))
  {
    hide Headers, VersionLine, LeadingEol;
    var p := LeadingEol(s).pos;
    var q := Token(s, p).pos;
    var j := Span(s, q, TokenByte);
    forall k | q <= k < j ensures s[k] != U.NUL {
      assert In(s[k], TokenByte);
    }
  }

  lemma PrefixNulFree(path: seq<byte>, n: nat)
    requires U.NulFree(path) && n <= |path|
    ensures U.NulFree(path[..n])
  {
  }

  /**
   The file a request is answered with is the one under the name that is opened; and if the path is rooted that name,
   "." and proper names, leads to the directory the server stands in or below it.
   */
  lemma AnswersInside(w: World, s: seq<byte>, cap: nat, d: seq<P.Name>)
    requires ParseRequest(s, cap).end.Done?
    ensures var t := ParseRequest(s, cap).end.value.path;
            && t.from <= t.to <= |s|
            && var path := Text(s, t); var name := U.Opened(path[..U.Query(path)]);
            && (Locate(w, path).Some? ==> name in w.files && Locate(w, path).value.file == w.files[name])
            && (P.Rooted(path) ==> d <= P.Target(d, name))
  {
    hide ParseRequest, U.Opened, P.Target, U.Resolved, P.Components;
    PathNulFree(s, cap);
    var path := Text(s, ParseRequest(s, cap).end.value.path);
    var q := path[..U.Query(path)];
    PrefixNulFree(path, U.Query(path));
    if P.Rooted(path) {
      assert P.Rooted(q);
      U.RootedOpened(q, d);
    }
  }

  // ---------- The table of types ----------

  lemma TextRows()
    ensures MimeType(".html") == Some("text/html") && MimeType(".css") == Some("text/css")
    ensures MimeType(".txt") == Some("text/plain") && MimeType(".csv") == Some("text/csv")
  {
  }

  lemma ImageRows()
    ensures MimeType(".png") == Some("image/png") && MimeType(".gif") == Some("image/gif")
    ensures MimeType(".jpg") == Some("image/jpeg") && MimeType(".jpeg") == Some("image/jpeg")
    ensures MimeType(".svg") == Some("image/svg+xml") && MimeType(".ico") == Some("image/x-icon")
  {
  }

  lemma ProgramRows()
    ensures MimeType(".js") == Some("application/x-javascript") && MimeType(".json") == Some("application/json")
    ensures MimeType(".pdf") == Some("application/pdf")
  {
  }

  lemma PackedRows()
    ensures MimeType(".doc") == Some("application/msword")
    ensures MimeType(".zip") == Some("application/zip") && MimeType(".gz") == Some("application/gzip")
  {
  }

  lemma FontRows()
    ensures MimeType(".woff") == Some("application/font-woff") && MimeType(".woff2") == Some("application/font-woff2")
  {
  }

  lemma AudioRows()
    ensures MimeType(".opus") == Some("audio/opus") && MimeType(".mp3") == Some("audio/mpeg")
  {
  }

  lemma VideoRows()
    ensures MimeType(".mp4") == Some("video/mp4")
    ensures MimeType(".mpeg") == Some("video/mpeg") && MimeType(".mpg") == Some("video/mpeg")
  {
  }

  lemma OfficeRow()
    ensures var a: seq<byte> := "application/vnd."; var b: seq<byte> := "openxmlformats-officedocument";
            var c: seq<byte> := ".wordprocessingml.document";
            MimeType(".docx") == Some(a + b + c)
  {
  }

  // ---------- The responses can be read ----------

  lemma TextTypes()
    ensures Plain("text/html")
    ensures Plain("text/css")
    ensures Plain("text/plain")
    ensures Plain("text/csv")
  {
  }

  lemma ImageTypes()
    ensures Plain("image/png")
    ensures Plain("image/jpeg")
    ensures Plain("image/svg+xml")
    ensures Plain("image/gif")
    ensures Plain("image/x-icon")
  {
  }

  lemma MediaTypes()
    ensures Plain("audio/opus")
    ensures Plain("video/mp4")
    ensures Plain("video/mpeg")
    ensures Plain("audio/mpeg")
  {
  }

  lemma ScriptTypes()
    ensures Plain("application/x-javascript")
    ensures Plain("application/json")
    ensures Plain("application/pdf")
  {
  }

  lemma PackedTypes()
    ensures Plain("application/zip")
    ensures Plain("application/gzip")
  {
  }

  lemma FontTypes()
    ensures Plain("application/font-woff")
    ensures Plain("application/font-woff2")
  {
  }

  lemma WordType()
    ensures Plain("application/msword")
  {
  }

  lemma OfficePart()
    ensures AllIn(OFFICE, ValueByte)
  {
  }

  lemma VendorParts()
    ensures Plain(VENDOR) && AllIn(WORDPROCESSING, ValueByte)
  {
  }

  lemma OfficeType()
    ensures Plain(VENDOR + OFFICE + WORDPROCESSING)
  {
    OfficePart();
    VendorParts();
    PlainConcat(VENDOR, OFFICE);
    PlainConcat(VENDOR + OFFICE, WORDPROCESSING);
  }

  lemma PlainConcat(a: seq<byte>, b: seq<byte>)
    requires Plain(a) && a != [] && AllIn(b, ValueByte)
    ensures Plain(a + b)
  {
    assert (a + b)[0] == a[0];
  }

  /** Every type in the table, and the one for all other files, can stand in a header field. */
  lemma MimePlain(name: seq<byte>)
    ensures Plain(ContentType(name))
  {
    hide Plain, LastIndex;
    TextTypes();
    ImageTypes();
    MediaTypes();
    ScriptTypes();
    PackedTypes();
    FontTypes();
    WordType();
    OfficeType();
  }
}
