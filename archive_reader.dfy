/** The archive reader of the mail sender (`MailSendService.read_qs`): a stored
    message is a newline-separated byte stream whose first line is container
    metadata and whose payload ends at the first line holding a fixed sentinel. */
module ArchiveReader {
  import opened Text

  /** Line separator `b'\n'`. */
  const NL: byte := 10

  /** The end-of-payload marker `^^^^^^^^+_~!spacelee@$%^&!@#)_,$^^^^^^^^^^`. */
  const Sentinel: seq<byte> :=
    [94, 94, 94, 94, 94, 94, 94, 94, 43, 95, 126, 33, 115, 112, 97, 99, 101, 108, 101, 101, 64,
     36, 37, 94, 38, 33, 64, 35, 41, 95, 44, 36, 94, 94, 94, 94, 94, 94, 94, 94, 94, 94]

  lemma {:induction false} SentinelShape()
    ensures |Sentinel| == 42 && NL !in Sentinel
  {
  }

  // ---------------------------------------------------------------------------
  // The ".gz" test: `mail_path.split(".")[-1].lower() == "gz"`

  function Last<T>(s: seq<T>): T
    requires |s| > 0
  {
    s[|s| - 1]
  }

  /** `str.lower` on the characters that matter here: ASCII letters. */
  function LowerChar(c: char): char
  {
    if 'A' <= c <= 'Z' then (c as int + 32) as char else c
  }

  /** `str.lower`: a name lowers to "gz" exactly when it is `g` or `G`
      followed by `z` or `Z`. */
  function Lower(s: string): (r: string)
    ensures r == "gz" <==> |s| == 2 && (s[0] == 'g' || s[0] == 'G') && (s[1] == 'z' || s[1] == 'Z')
  {
    var r := seq(|s|, i requires 0 <= i < |s| => LowerChar(s[i]));
    assert |s| == 2 ==> r == [LowerChar(s[0]), LowerChar(s[1])];
    r
  }

  /** The file is opened through gzip. */
  predicate IsGzPath(path: string)
  {
    Lower(Last(Split(path, '.'))) == "gz"
  }

  /** `l` ends `s` and is either all of it or preceded by a separator. */
  predicate EndsAfterSep<T(==)>(s: seq<T>, l: seq<T>, sep: T)
  {
    |l| <= |s| && l == s[|s| - |l|..] && (|l| < |s| ==> s[|s| - |l| - 1] == sep)
  }

  /** Putting one element in front keeps a suffix, which then follows a
      separator if it took up the whole tail and that element is one. */
  lemma {:induction false} ConsEndsAfterSep<T>(s: seq<T>, l: seq<T>, sep: T)
    requires |s| > 0 && EndsAfterSep(s[1..], l, sep)
    requires |l| == |s| - 1 ==> s[0] == sep
    ensures EndsAfterSep(s, l, sep)
  {
    assert s[1..][|s| - 1 - |l|..] == s[|s| - |l|..];
    if |l| < |s| - 1 {
      assert s[1..][|s| - 1 - |l| - 1] == s[|s| - |l| - 1];
    }
  }

  /** The last piece of a split is the separator-free suffix that is the whole
      sequence or follows a separator. */
  lemma {:induction false} LastPiece<T>(s: seq<T>, sep: T)
    ensures EndsAfterSep(s, Last(Split(s, sep)), sep)
    decreases |s|
  {
    if |s| > 0 {
      var rest := Split(s[1..], sep);
      LastPiece(s[1..], sep);
      var l := Last(rest);
      if s[0] == sep {
        assert Last(Split(s, sep)) == l;
        ConsEndsAfterSep(s, l, sep);
      } else if |rest| == 1 {
        SplitWithoutSep(s, sep);
      } else {
        assert Last(Split(s, sep)) == l;
        assert |l| != |s| - 1;
        ConsEndsAfterSep(s, l, sep);
      }
    }
  }

  /** A dot-free final piece reads "gz" exactly when the name ends in two
      characters that lower to "gz" and nothing but a dot comes before them. */
  lemma {:induction false} GzSuffix(path: string, l: string)
    requires EndsAfterSep(path, l, '.') && '.' !in l
    ensures Lower(l) == "gz" <==>
      |path| >= 2 && Lower(path[|path| - 2..]) == "gz" && (|path| == 2 || path[|path| - 3] == '.')
  {
    var n := |path|;
    if Lower(l) == "gz" {
      assert |l| == 2;
    }
    if n >= 2 && Lower(path[n - 2..]) == "gz" && (n == 2 || path[n - 3] == '.') {
      assert LowerChar(path[n - 2]) == 'g' && LowerChar(path[n - 1]) == 'z';
      assert path[n - 2] != '.' && path[n - 1] != '.';
      assert l == path[n - 2..];
    }
  }

  /** The gzip branch is taken exactly for a name whose last two characters
      are `g`/`G` and `z`/`Z` and that is either just those two or has a dot
      before them. */
  lemma {:induction false} IsGzPathIff(path: string)
    ensures IsGzPath(path) <==>
      |path| >= 2 && Lower(path[|path| - 2..]) == "gz" && (|path| == 2 || path[|path| - 3] == '.')
  {
    var parts := Split(path, '.');
    LastPiece(path, '.');
    assert '.' !in parts[|parts| - 1];
    GzSuffix(path, Last(parts));
  }

  // ---------------------------------------------------------------------------
  // Opening the file

  /** The file system as the reader sees it: the stored bytes of each path and
      the gzip decompressor (section 2.3 of RFC 1952 is not modelled). */
  datatype Store = Store(raw: string -> seq<byte>, gunzip: seq<byte> -> seq<byte>)
  {
    /** What `fd.read()` returns for `path`. */
    function Read(path: string): seq<byte>
    {
      if IsGzPath(path) then gunzip(raw(path)) else raw(path)
    }
  }

  // ---------------------------------------------------------------------------
  // Framing

  /** The lines with a newline after each: `b''.join(l + b'\n' for l in ls)`. */
  function Terminated(ls: seq<seq<byte>>): seq<byte>
  {
    if |ls| == 0 then [] else ls[0] + [NL] + Terminated(ls[1..])
  }

  /** The first index from `from` on whose line contains the sentinel, or
      `|lines|` if there is none. */
  function SentinelIndex(lines: seq<seq<byte>>, from: nat): (k: nat)
    requires from <= |lines|
    ensures from <= k <= |lines|
    ensures forall j :: from <= j < k ==> !Contains(lines[j], Sentinel)
    ensures k < |lines| ==> Contains(lines[k], Sentinel)
    decreases |lines| - from
  {
    if from == |lines| then from
    else if Contains(lines[from], Sentinel) then from
    else SentinelIndex(lines, from + 1)
  }

  /** The payload `read_qs` extracts from the bytes of a file: line 0 dropped,
      then every line followed by a newline, up to and without the first line
      that contains the sentinel. */
  function Framed(data: seq<byte>): seq<byte>
  {
    var lines := Split(data, NL);
    Terminated(lines[1..SentinelIndex(lines, 1)])
  }

  /** `read_qs`: open (through gzip for a `.gz` name), read, and copy the
      framed lines. */
  method ReadQs(mailPath: string, store: Store) returns (newData: seq<byte>)
    ensures newData == Framed(store.Read(mailPath))
  {
    var mailData := store.Read(mailPath);
    var lines := Split(mailData, NL);
    newData := [];
    var idx := 0;
    while idx < |lines|
      invariant 0 <= idx <= |lines|
      invariant idx == 0 ==> newData == []
      invariant 1 <= idx ==> newData == Terminated(lines[1..idx])
      invariant forall j :: 1 <= j < idx ==> !Contains(lines[j], Sentinel)
    {
      var line := lines[idx];
      if idx == 0 {
        idx := idx + 1;
        continue;
      }
      if Contains(line, Sentinel) {
        break;
      }
      TerminatedSnoc(lines[1..idx], line);
      assert lines[1..idx + 1] == lines[1..idx] + [line];
      newData := newData + line + [NL];
      idx := idx + 1;
    }
    assert 1 <= idx;
    assert SentinelIndex(lines, 1) == idx;
  }

  // ---------------------------------------------------------------------------
  // Properties of the framing

  lemma {:induction false} TerminatedSnoc(ls: seq<seq<byte>>, l: seq<byte>)
    ensures Terminated(ls + [l]) == Terminated(ls) + l + [NL]
    decreases |ls|
  {
    if |ls| > 0 {
      assert (ls + [l])[1..] == ls[1..] + [l];
      TerminatedSnoc(ls[1..], l);
    }
  }

  /** Newline-terminated lines are the lines joined with one more, empty, line. */
  lemma {:induction false} TerminatedIsJoin(ls: seq<seq<byte>>)
    ensures Terminated(ls) == Join(ls + [[]], NL)
    decreases |ls|
  {
    if |ls| > 0 {
      assert (ls + [[]])[1..] == ls[1..] + [[]];
      TerminatedIsJoin(ls[1..]);
    }
  }

  /** Copying fewer lines gives a prefix. */
  lemma {:induction false} TerminatedPrefix(ls: seq<seq<byte>>, k: nat)
    requires k <= |ls|
    ensures Terminated(ls[..k]) <= Terminated(ls)
    decreases k
  {
    if k > 0 {
      assert ls[..k][1..] == ls[1..][..k - 1];
      TerminatedPrefix(ls[1..], k - 1);
    }
  }

  /** Lines free of a newline-free, non-empty pattern stay free of it once
      terminated and concatenated. */
  lemma {:induction false} TerminatedAvoids(ls: seq<seq<byte>>, p: seq<byte>)
    requires |p| > 0 && NL !in p
    requires forall j :: 0 <= j < |ls| ==> !Contains(ls[j], p)
    ensures !Contains(Terminated(ls), p)
    decreases |ls|
  {
    if |ls| == 0 {
      if Contains(Terminated(ls), p) {
        ContainsInEmpty(p);
      }
    } else {
      TerminatedAvoids(ls[1..], p);
      if Contains(Terminated(ls), p) {
        ContainsAcrossSep(ls[0], NL, Terminated(ls[1..]), p);
      }
    }
  }

  /** Line 0 of the stored bytes: everything before the first newline. */
  function Header(data: seq<byte>): seq<byte>
  {
    Split(data, NL)[0]
  }

  /** The header is the newline-free prefix that ends at the first newline or
      at the end of the data. */
  lemma {:induction false} HeaderShape(data: seq<byte>)
    ensures var h := |Header(data)|;
      h <= |data| && data[..h] == Header(data) && NL !in Header(data) &&
      (h < |data| <==> NL in data) && (h < |data| ==> data[h] == NL)
  {
    var lines := Split(data, NL);
    JoinSplit(data, NL);
    if |lines| > 1 {
      assert data == lines[0] + [NL] + Join(lines[1..], NL);
      assert data[|lines[0]|] == NL;
    }
  }

  /** What follows the first newline (nothing if there is none). */
  function AfterHeader(data: seq<byte>): seq<byte>
  {
    var h := |Header(data)|;
    if h < |data| then data[h + 1..] else []
  }

  /** Data without a newline has no payload. */
  lemma {:induction false} FramedWithoutNewline(data: seq<byte>)
    requires NL !in data
    ensures Framed(data) == []
  {
    SplitWithoutSep(data, NL);
  }

  /** The splitting of the stored bytes after the header. */
  lemma {:induction false} SplitAfterHeader(data: seq<byte>)
    requires NL in data
    ensures var lines := Split(data, NL);
      |lines| >= 2 && |lines[0]| < |data| && data[|lines[0]| + 1..] == Join(lines[1..], NL)
  {
    var lines := Split(data, NL);
    JoinSplit(data, NL);
    assert |lines| >= 2;
    assert data == lines[0] + [NL] + Join(lines[1..], NL);
  }

  /** Without a sentinel after the header, the payload is everything after the
      first newline with one more newline at the end (so data ending in a
      newline gives a payload ending in two). */
  lemma {:induction false} FramedWithoutSentinel(data: seq<byte>)
    requires NL in data
    requires !Contains(AfterHeader(data), Sentinel)
    ensures Framed(data) == AfterHeader(data) + [NL]
  {
    var lines := Split(data, NL);
    SplitAfterHeader(data);
    var body := lines[1..];
    forall j | 0 <= j < |body|
      ensures !Contains(body[j], Sentinel)
    {
      if Contains(body[j], Sentinel) {
        ContainsPieceOfJoin(body, NL, j, Sentinel);
      }
    }
    assert AfterHeader(data) == Join(body, NL);
    assert forall j :: 1 <= j < |lines| ==> lines[j] == body[j - 1];
    assert SentinelIndex(lines, 1) == |lines|;
    assert lines[1..|lines|] == body;
    TerminatedIsJoin(body);
    JoinSnoc(body, []);
  }

  lemma {:induction false} JoinSnoc(ls: seq<seq<byte>>, l: seq<byte>)
    requires |ls| >= 1
    ensures Join(ls + [l], NL) == Join(ls, NL) + [NL] + l
    decreases |ls|
  {
    if |ls| > 1 {
      assert (ls + [l])[1..] == ls[1..] + [l];
      JoinSnoc(ls[1..], l);
    }
  }

  /** The payload never contains the sentinel. */
  lemma {:induction false} FramedAvoidsSentinel(data: seq<byte>)
    ensures !Contains(Framed(data), Sentinel)
  {
    var lines := Split(data, NL);
    var k := SentinelIndex(lines, 1);
    SentinelShape();
    TerminatedAvoids(lines[1..k], Sentinel);
  }

  /** The payload is a prefix of what follows the header, plus one newline;
      so it is never longer than the data without its header. */
  lemma {:induction false} FramedIsPrefix(data: seq<byte>)
    ensures NL in data ==> Framed(data) <= AfterHeader(data) + [NL]
    ensures NL !in data ==> Framed(data) == []
    ensures |Framed(data)| <= |data| - |Header(data)|
  {
    HeaderShape(data);
    if NL in data {
      FramedPrefixOfBody(data);
    } else {
      FramedWithoutNewline(data);
    }
  }

  lemma {:induction false} FramedPrefixOfBody(data: seq<byte>)
    requires NL in data
    ensures Framed(data) <= AfterHeader(data) + [NL]
  {
    var lines := Split(data, NL);
    var k := SentinelIndex(lines, 1);
    FramedTakesBody(data);
    BodyTerminated(data);
    TerminatedPrefix(lines[1..], k - 1);
    PrefixTrans(Framed(data), Terminated(lines[1..][..k - 1]), Terminated(lines[1..]), AfterHeader(data) + [NL]);
  }

  /** The payload copies the lines after the header up to the sentinel. */
  lemma {:induction false} FramedTakesBody(data: seq<byte>)
    requires NL in data
    ensures var lines := Split(data, NL);
      |lines| >= 2 && Framed(data) == Terminated(lines[1..][..SentinelIndex(lines, 1) - 1])
  {
    var lines := Split(data, NL);
    SplitAfterHeader(data);
    TerminatedSlice(lines, SentinelIndex(lines, 1));
  }

  lemma {:induction false} TerminatedSlice(ls: seq<seq<byte>>, k: nat)
    requires 1 <= k <= |ls|
    ensures Terminated(ls[1..k]) == Terminated(ls[1..][..k - 1])
  {
    assert ls[1..k] == ls[1..][..k - 1];
  }

  /** Every line after the header, newline-terminated, is what follows the
      first newline with one more newline. */
  lemma {:induction false} BodyTerminated(data: seq<byte>)
    requires NL in data
    ensures Terminated(Split(data, NL)[1..]) == AfterHeader(data) + [NL]
  {
    var lines := Split(data, NL);
    SplitAfterHeader(data);
    TerminatedIsJoin(lines[1..]);
    JoinSnoc(lines[1..], []);
  }

  lemma {:induction false} PrefixTrans<T>(a: seq<T>, a': seq<T>, b: seq<T>, c: seq<T>)
    requires a == a' && a' <= b && b == c
    ensures a <= c
  {
  }

  /** Byte for byte: the lines of the payload are the copied lines (and the
      empty piece after the last newline). */
  lemma {:induction false} FramedLines(data: seq<byte>)
    ensures var lines := Split(data, NL);
      Split(Framed(data), NL) == lines[1..SentinelIndex(lines, 1)] + [[]]
  {
    var lines := Split(data, NL);
    var copied := lines[1..SentinelIndex(lines, 1)];
    TerminatedIsJoin(copied);
    SplitJoin(copied + [[]], NL);
  }

  /** The sentinel index is the one position between `from` and the end that
      no earlier line passes and whose line, if any, holds the sentinel. */
  lemma {:induction false} SentinelIndexAt(lines: seq<seq<byte>>, from: nat, k: nat)
    requires from <= k <= |lines|
    requires forall j :: from <= j < k ==> !Contains(lines[j], Sentinel)
    requires k < |lines| ==> Contains(lines[k], Sentinel)
    ensures SentinelIndex(lines, from) == k
  {
  }

  /** The container format read back: a header line, body lines without the
      sentinel, then optionally a sentinel line and anything after it, give
      exactly the body lines back, each newline-terminated. */
  lemma {:induction false} FramedContainer(header: seq<byte>, body: seq<seq<byte>>, trailer: seq<seq<byte>>)
    requires NL !in header
    requires forall j :: 0 <= j < |body| ==> NL !in body[j] && !Contains(body[j], Sentinel)
    requires forall j :: 0 <= j < |trailer| ==> NL !in trailer[j]
    requires trailer != [] ==> Contains(trailer[0], Sentinel)
    ensures Framed(Join([header] + body + trailer, NL)) == Terminated(body)
  {
    var lines := [header] + body + trailer;
    SplitJoin(lines, NL);
    assert lines[1..1 + |body|] == body;
    assert trailer != [] ==> lines[1 + |body|] == trailer[0];
    SentinelIndexAt(lines, 1, 1 + |body|);
  }
}
