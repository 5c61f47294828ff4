/**
  The string handling of the HTTP control surface: extracting a key's value
  from the request's query string, the decision whether a POST carries any
  gain to queue, and the trimming of line ends when a text file is streamed
  back as HTML.
 */
module UiHttpServer {
  import opened LibC

  const AMP: char := '&'
  const LF: char := '\n'
  const CR: char := '\r'

  /** Size of the line buffer fgets fills in Text2Html. */
  const LINE_BUFFER_SIZE: nat := 128

  const GAIN_1_KEY: CString := "gain_1="
  const GAIN_2_KEY: CString := "gain_2="
  const GAIN_3_KEY: CString := "gain_3="

  // ---------------------------------------------------------------------
  // find_key_value
  // ---------------------------------------------------------------------

  /** i is where the key first occurs in the parameter string. */
  predicate FirstOccurrence(parameter: string, key: string, i: nat) {
    OccursAt(parameter, key, i) && forall j :: 0 <= j < i ==> !OccursAt(parameter, key, j)
  }

  /** There is only one first occurrence. */
  lemma FirstOccurrenceUnique(parameter: string, key: string, i: nat, i': nat)
    requires FirstOccurrence(parameter, key, i) && FirstOccurrence(parameter, key, i')
    ensures i == i'
  {
  }

  /** v is the text of p from index `start` up to, not including, the next
      '&', or to the end when there is none. */
  predicate ValueAt(p: string, start: nat, v: string) {
    start + |v| <= |p| && p[start..start + |v|] == v && AMP !in v
    && (start + |v| == |p| || p[start + |v|] == AMP)
  }

  /** Reference definition: the characters of s before its first '&'. */
  function UpToAmp(s: string): string {
    if s == [] || s[0] == AMP then [] else [s[0]] + UpToAmp(s[1..])
  }

  /** The text find_key_value copies out: None when the key does not occur;
      otherwise what follows the key's first occurrence, up to the next '&'
      or the end of the string. The key may occur anywhere, not only at the
      start of a field. */
  function KeyValue(key: CString, parameter: CString): (r: Option<CString>)
    ensures r.None? <==> forall i: nat :: !OccursAt(parameter, key, i)
    ensures r.Some? ==>
              exists i: nat :: FirstOccurrence(parameter, key, i) && ValueAt(parameter, i + |key|, r.value)
  {
    match StrStr(parameter, key)
    case None => None
    case Some(i) =>
      var rest: CString := parameter[i + |key|..];
      match StrStr(rest, [AMP])
      case None =>
        assert forall k :: 0 <= k < |rest| ==> rest[k] != AMP by {
          forall k | 0 <= k < |rest| ensures rest[k] != AMP {
            assert !OccursAt(rest, [AMP], k);
          }
        }
        assert FirstOccurrence(parameter, key, i) && ValueAt(parameter, i + |key|, rest);
        Some(rest)
      case Some(j) =>
        var v: CString := rest[..j];
        assert AMP !in v by {
          forall k | 0 <= k < j ensures v[k] != AMP {
            assert !OccursAt(rest, [AMP], k);
          }
        }
        assert OccursAt(rest, [AMP], j);
        assert FirstOccurrence(parameter, key, i) && ValueAt(parameter, i + |key|, v);
        Some(v)
  }

  /** ValueAt determines the value: it is the reference UpToAmp of the rest
      of the string. */
  lemma {:induction false} ValueAtIsUpToAmp(p: string, start: nat, v: string)
    requires ValueAt(p, start, v)
    ensures v == UpToAmp(p[start..])
    decreases |v|
  {
    if v != [] {
      assert p[start..][0] == v[0];
      assert p[start..][1..] == p[start + 1..];
      ValueAtIsUpToAmp(p, start + 1, v[1..]);
    }
  }

  /** KeyValue agrees with the reference definition: at the key's first
      occurrence i, the value is everything after the key up to the first
      '&'. */
  lemma KeyValueIsUpToAmp(key: CString, parameter: CString, i: nat)
    requires FirstOccurrence(parameter, key, i)
    ensures KeyValue(key, parameter) == Some(UpToAmp(parameter[i + |key|..]))
  {
    var r := KeyValue(key, parameter);
    var i': nat :| FirstOccurrence(parameter, key, i') && ValueAt(parameter, i' + |key|, r.value);
    FirstOccurrenceUnique(parameter, key, i, i');
    ValueAtIsUpToAmp(parameter, i + |key|, r.value);
  }

  /** What find_key_value returns: the length of the value, so 0 both when
      the key is absent and when its value is empty. */
  function FindKeyValueResult(key: CString, parameter: CString): nat {
    match KeyValue(key, parameter)
    case None => 0
    case Some(v) => |v|
  }

  /** A key that does not occur yields no value. */
  lemma KeyAbsentExample()
    ensures KeyValue(GAIN_1_KEY, "gain_2=4") == None
  {
    var p: CString := "gain_2=4";
    forall i: nat ensures !OccursAt(p, GAIN_1_KEY, i) {
      if i == 0 {
        assert p[0..7][5] != GAIN_1_KEY[5];
      } else if i == 1 {
        assert p[1..8][0] != GAIN_1_KEY[0];
      }
    }
  }

  /** An empty value returns 0, exactly as an absent key does. */
  lemma EmptyValueExample()
    ensures KeyValue(GAIN_1_KEY, "gain_1=&gain_2=4") == Some("")
    ensures FindKeyValueResult(GAIN_1_KEY, "gain_1=&gain_2=4") == 0
  {
    KeyValueIsUpToAmp(GAIN_1_KEY, "gain_1=&gain_2=4", 0);
  }

  /** The key is matched anywhere, not only at the start of a field. */
  lemma UnanchoredExample()
    ensures KeyValue(GAIN_1_KEY, "xgain_1=7") == Some("7")
  {
    var p: CString := "xgain_1=7";
    assert p[0..7][0] != GAIN_1_KEY[0];
    KeyValueIsUpToAmp(GAIN_1_KEY, p, 1);
    assert p[8..] == "7";
  }

  /** find_key_value: when the key occurs, copy its value and a terminator
      into the caller's buffer (strcpy when no '&' follows, strncpy plus an
      explicit terminator otherwise) and return the length of what the
      buffer now holds; when it does not, return 0 and leave the buffer as
      it was. The buffer must hold the value and its terminator. */
  method FindKeyValue(key: CString, parameter: CString, value: array<char>) returns (n: int)
    requires KeyValue(key, parameter).Some? ==> |KeyValue(key, parameter).value| < value.Length
    modifies value
    ensures KeyValue(key, parameter).None? ==> n == 0 && value[..] == old(value[..])
    ensures KeyValue(key, parameter).Some? ==>
              var v := KeyValue(key, parameter).value;
              value[..] == v + [NUL] + old(value[..])[|v| + 1..]
    ensures n == FindKeyValueResult(key, parameter)
    ensures ReadCString(value[..]) == (match KeyValue(key, parameter)
                                       case None => ReadCString(old(value[..]))
                                       case Some(v) => v)
    ensures AMP !in ReadCString(value[..]) || KeyValue(key, parameter).None?
  {
    var addr1 := StrStr(parameter, key);
    if addr1.None? {
      return 0;
    }
    var addr2 := addr1.value + |key|;
    var rest: CString := parameter[addr2..];
    var addr3 := StrStr(rest, [AMP]);
    ghost var v := KeyValue(key, parameter).value;
    ghost var before := value[..];
    if addr3.None? {
      // strcpy: the rest of the string and its terminator
      forall k | 0 <= k < |rest| {
        value[k] := rest[k];
      }
      value[|rest|] := NUL;
    } else {
      // strncpy of `length` characters, then an explicit terminator
      var length := addr3.value;
      forall k | 0 <= k < length {
        value[k] := rest[k];
      }
      value[length] := NUL;
    }
    assert value[..] == v + [NUL] + before[|v| + 1..];
    StrLenOfTerminated(v, before[|v| + 1..]);
    n := StrLen(value[..]);
  }

  // ---------------------------------------------------------------------
  // root_post_handler
  // ---------------------------------------------------------------------

  /** The response every POST gets: a redirect onto the root page. */
  datatype HttpResponse = HttpResponse(status: string, location: string, body: string)

  const SEE_OTHER: HttpResponse := HttpResponse("303 See Other", "/", "post successfully")

  /** URL_t as queued to the HTTP task: the text left in str_value, and for
      each gain the text strtof parses it from (None: the gain keeps the 0
      the structure was cleared to). */
  datatype UrlMessage = UrlMessage(strValue: string, gain1: Option<string>, gain2: Option<string>, gain3: Option<string>)

  /** The text a gain is parsed from: the key's value, when the lookup
      returns non-zero. */
  function GainText(key: CString, uri: CString): Option<string> {
    match KeyValue(key, uri)
    case Some(v) => if v != [] then Some(v) else None
    case None => None
  }

  /** The text left in str_value after the three lookups: the value of the
      last key that occurs, even an empty one; "" when none occurs. */
  function LastValue(uri: CString): string {
    match KeyValue(GAIN_3_KEY, uri)
    case Some(v3) => v3
    case None =>
      match KeyValue(GAIN_2_KEY, uri)
      case Some(v2) => v2
      case None =>
        match KeyValue(GAIN_1_KEY, uri)
        case Some(v1) => v1
        case None => []
  }

  /** A value found for the key fits, with its terminator, in the buffer. */
  predicate Fits(key: CString, uri: CString, capacity: nat) {
    KeyValue(key, uri).Some? ==> |KeyValue(key, uri).value| < capacity
  }

  /** root_post_handler: clear a URL_t, look up the three gains in the URI
      with the same str_value buffer, queue the structure when at least one
      lookup returned non-zero, and answer with a redirect to "/" in every
      case. */
  method RootPostHandler(uri: CString, capacity: nat) returns (response: HttpResponse, queued: Option<UrlMessage>)
    requires Fits(GAIN_1_KEY, uri, capacity) && Fits(GAIN_2_KEY, uri, capacity) && Fits(GAIN_3_KEY, uri, capacity)
    ensures response == SEE_OTHER
    ensures queued.Some? <==>
              FindKeyValueResult(GAIN_1_KEY, uri) != 0 || FindKeyValueResult(GAIN_2_KEY, uri) != 0
              || FindKeyValueResult(GAIN_3_KEY, uri) != 0
    ensures queued.Some? ==>
              queued.value == UrlMessage(LastValue(uri), GainText(GAIN_1_KEY, uri),
                                         GainText(GAIN_2_KEY, uri), GainText(GAIN_3_KEY, uri))
  {
    var strValue := new char[capacity](_ => NUL);
    assert ReadCString(strValue[..]) == [] by {
      if capacity > 0 {
        assert strValue[..][0] == NUL;
      }
    }
    var ret := -1;
    var gain1, gain2, gain3: Option<string> := None, None, None;

    ghost var kv1, kv2, kv3 := KeyValue(GAIN_1_KEY, uri), KeyValue(GAIN_2_KEY, uri), KeyValue(GAIN_3_KEY, uri);

    var n := FindKeyValue(GAIN_1_KEY, uri, strValue);
    if n != 0 {
      gain1 := Some(ReadCString(strValue[..]));
      ret := 0;
    }
    assert gain1 == GainText(GAIN_1_KEY, uri);
    assert ReadCString(strValue[..]) == (if kv1.Some? then kv1.value else []);

    n := FindKeyValue(GAIN_2_KEY, uri, strValue);
    if n != 0 {
      gain2 := Some(ReadCString(strValue[..]));
      ret := 0;
    }
    assert gain2 == GainText(GAIN_2_KEY, uri);
    assert ReadCString(strValue[..]) ==
             (if kv2.Some? then kv2.value else if kv1.Some? then kv1.value else []);

    n := FindKeyValue(GAIN_3_KEY, uri, strValue);
    if n != 0 {
      gain3 := Some(ReadCString(strValue[..]));
      ret := 0;
    }
    assert gain3 == GainText(GAIN_3_KEY, uri);
    assert ReadCString(strValue[..]) == LastValue(uri);
    assert ret >= 0 <==> gain1.Some? || gain2.Some? || gain3.Some?;

    if ret >= 0 {
      queued := Some(UrlMessage(ReadCString(strValue[..]), gain1, gain2, gain3));
    } else {
      queued := None;
    }
    response := SEE_OTHER;
  }

  // ---------------------------------------------------------------------
  // Text2Html
  // ---------------------------------------------------------------------

  predicate IsEol(c: char) {
    c == LF || c == CR
  }

  /** A line with every trailing CR and LF removed: a prefix of the line
      that does not end in CR or LF, and all that was cut off is CR or LF. */
  function TrimEol(s: string): (t: string)
    ensures |t| <= |s| && t == s[..|t|]
    ensures t == [] || !IsEol(t[|t| - 1])
    ensures forall k :: |t| <= k < |s| ==> IsEol(s[k])
  {
    if s != [] && IsEol(s[|s| - 1]) then TrimEol(s[..|s| - 1]) else s
  }

  /** The three properties of TrimEol single out the trimmed line: a cut
      point i with only CR/LF after it and no CR/LF just before it is where
      TrimEol cuts. */
  lemma TrimEolAt(s: string, i: nat)
    requires i <= |s|
    requires i == 0 || !IsEol(s[i - 1])
    requires forall k :: i <= k < |s| ==> IsEol(s[k])
    ensures TrimEol(s) == s[..i]
  {
    var t := TrimEol(s);
    assert t != [] ==> t[|t| - 1] == s[|t| - 1];
  }

  /** Trimming twice is trimming once. */
  lemma TrimEolIdempotent(s: string)
    ensures TrimEol(TrimEol(s)) == TrimEol(s)
  {
    var t := TrimEol(s);
    TrimEolAt(t, |t|);
  }

  /** The end-of-line loop of Text2Html: walk back from the terminator,
      overwrite each CR or LF with a terminator and stop at the first other
      character. Everything before that character and after the old
      terminator is left as it was. */
  method StripEol(line: array<char>)
    modifies line
    ensures var len := StrLen(old(line[..]));
            var t := TrimEol(old(line[..])[..len]);
            forall k :: 0 <= k < line.Length ==>
              line[k] == if |t| <= k < len then NUL else old(line[k])
    ensures ReadCString(line[..]) == TrimEol(ReadCString(old(line[..])))
  {
    ghost var before := line[..];
    var linelen := StrLen(line[..]);
    var i := linelen;
    while i > 0
      invariant 0 <= i <= linelen <= line.Length
      invariant forall k :: 0 <= k < line.Length ==>
                  line[k] == if i <= k < linelen then NUL else before[k]
      invariant forall k :: i <= k < linelen ==> IsEol(before[k])
    {
      if line[i - 1] == LF {
        line[i - 1] := NUL;
      } else if line[i - 1] == CR {
        line[i - 1] := NUL;
      } else {
        break;
      }
      i := i - 1;
    }
    TrimEolAt(before[..linelen], i);
    assert before[..linelen][..i] == before[..i];
    assert line[..][..i] == before[..i];
    ReadCStringAt(line[..], i);
  }

  /** The chunks sent for the pieces fgets returns: each piece trimmed of
      its line end, the ones left empty skipped. */
  function Chunks(pieces: seq<string>): (cs: seq<string>)
    decreases |pieces|
    ensures |cs| <= |pieces|
  {
    if pieces == [] then []
    else
      var t := TrimEol(pieces[|pieces| - 1]);
      Chunks(pieces[..|pieces| - 1]) + (if t == [] then [] else [t])
  }

  /** One more piece adds its trimmed text, unless that is empty. */
  lemma ChunksStep(pieces: seq<string>, i: nat)
    requires i < |pieces|
    ensures var t := TrimEol(pieces[i]);
            Chunks(pieces[..i + 1]) == Chunks(pieces[..i]) + (if t == [] then [] else [t])
  {
    assert pieces[..i + 1][..i] == pieces[..i];
  }

  /** Every chunk sent is non-empty, has no line end at its end, and begins
      one of the pieces read. */
  lemma {:induction false} ChunksWellFormed(pieces: seq<string>)
    ensures forall c | c in Chunks(pieces) ::
              c != [] && !IsEol(c[|c| - 1]) && exists p | p in pieces :: c <= p
    decreases |pieces|
  {
    if pieces != [] {
      var init := pieces[..|pieces| - 1];
      var last := pieces[|pieces| - 1];
      ChunksWellFormed(init);
      forall c | c in Chunks(pieces)
        ensures c != [] && !IsEol(c[|c| - 1]) && exists p | p in pieces :: c <= p
      {
        if c in Chunks(init) {
          var p :| p in init && c <= p;
          assert p in pieces;
        } else {
          assert c == TrimEol(last);
          assert last in pieces;
        }
      }
    }
  }

  /** What fgets leaves in the line buffer when it returns a piece: the
      piece's characters and a terminator, the rest of the buffer as it was. */
  method Fgets(line: array<char>, piece: CString)
    requires |piece| < line.Length
    modifies line
    ensures line[..] == piece + [NUL] + old(line[..])[|piece| + 1..]
    ensures ReadCString(line[..]) == piece
  {
    ghost var before := line[..];
    forall k | 0 <= k < |piece| {
      line[k] := piece[k];
    }
    line[|piece|] := NUL;
    assert line[..] == piece + [NUL] + before[|piece| + 1..];
    StrLenOfTerminated(piece, before[|piece| + 1..]);
  }

  /** The line loop of Text2Html over the pieces fgets returns (each at most
      127 characters, the rest of the 128-byte buffer): copy the piece and its
      terminator into the line buffer, strip the line end in place, and send
      what is left unless it is empty. */
  method SendTextFile(pieces: seq<CString>) returns (sent: seq<string>)
    requires forall p | p in pieces :: |p| < LINE_BUFFER_SIZE
    ensures sent == Chunks(pieces)
  {
    sent := [];
    var line := new char[LINE_BUFFER_SIZE];
    var i := 0;
    while i < |pieces|
      invariant 0 <= i <= |pieces|
      invariant sent == Chunks(pieces[..i])
    {
      var piece := pieces[i];
      Fgets(line, piece);
      StripEol(line);
      var text := ReadCString(line[..]);
      ChunksStep(pieces, i);
      if |text| != 0 {
        sent := sent + [text];
      }
      i := i + 1;
    }
    assert pieces[..i] == pieces;
  }
}
