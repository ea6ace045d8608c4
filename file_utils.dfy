/** Extraction of the base64 payload from the data URL a `FileReader`
    produces, as done before an image is sent to the model
    (utils/fileUtils.ts). The reader itself is I/O: its result is an input. */
module FileUtils {
  import opened Wrappers
  import opened Types

  const NotAStringMessage := "FileReader did not return a string."
  const NoBase64Message := "Could not extract base64 data from file."

  /** What `reader.result` holds when the read finishes: a string (the data
      URL) or something else (an `ArrayBuffer`, or `null`). */
  datatype ReaderResult = StringResult(text: string) | OtherResult

  /** JavaScript's `s.split(sep)` for a one-character separator: the maximal
      separator-free pieces, in order, one more piece than there are
      separators (so the empty string splits into one empty piece). */
  function Split(s: string, sep: char): (parts: seq<string>)
    ensures |parts| >= 1
    ensures forall k :: 0 <= k < |parts| ==> sep !in parts[k]
    decreases |s|
  {
    if |s| == 0 then [""]
    else
      var rest := Split(s[1..], sep);
      if s[0] == sep then [""] + rest
      else [[s[0]] + rest[0]] + rest[1..]
  }

  /** The inverse of `Split`: the pieces glued back with the separator. */
  function Join(parts: seq<string>, sep: char): string
  {
    if |parts| == 0 then ""
    else if |parts| == 1 then parts[0]
    else parts[0] + [sep] + Join(parts[1..], sep)
  }

  /** Splitting a string that starts with a separator-free prefix `h`
      glues `h` onto the first piece of the rest. */
  lemma {:induction false} SplitPrefix(h: string, rest: string, sep: char)
    requires sep !in h
    ensures Split(h + rest, sep) == [h + Split(rest, sep)[0]] + Split(rest, sep)[1..]
  {
    if h == [] {
      var pieces := Split(rest, sep);
      assert h + rest == rest;
      assert h + pieces[0] == pieces[0];
      assert [pieces[0]] + pieces[1..] == pieces;
    } else {
      SplitPrefix(h[1..], rest, sep);
      assert (h + rest)[1..] == h[1..] + rest;
      assert [h[0]] + (h[1..] + Split(rest, sep)[0]) == h + Split(rest, sep)[0];
    }
  }

  /** A separator-free prefix followed by a separator is exactly the first
      piece; the remaining pieces are those of what follows the separator. */
  lemma SplitAtFirstSeparator(h: string, t: string, sep: char)
    requires sep !in h
    ensures Split(h + [sep] + t, sep) == [h] + Split(t, sep)
  {
    assert h + [sep] + t == h + ([sep] + t);
    SplitPrefix(h, [sep] + t, sep);
    assert ([sep] + t)[1..] == t;
    assert Split([sep] + t, sep) == [""] + Split(t, sep);
    assert h + "" == h;
  }

  /** A separator-free string is a single piece. */
  lemma SplitNoSeparator(h: string, sep: char)
    requires sep !in h
    ensures Split(h, sep) == [h]
  {
    assert h + "" == h;
    SplitPrefix(h, "", sep);
  }

  /** Round trip one way: joining the pieces of a split gives the string back. */
  lemma {:induction false} JoinSplit(s: string, sep: char)
    ensures Join(Split(s, sep), sep) == s
    decreases |s|
  {
    if |s| > 0 {
      JoinSplit(s[1..], sep);
      var rest := Split(s[1..], sep);
      if s[0] == sep {
        assert Split(s, sep) == [""] + rest;
        assert ([""] + rest)[1..] == rest;
        assert s == [sep] + s[1..];
      } else if |rest| == 1 {
        assert s == [s[0]] + s[1..];
      } else {
        var r := Split(s, sep);
        assert r[1..] == rest[1..];
        assert Join(rest, sep) == rest[0] + [sep] + Join(rest[1..], sep);
        assert s == [s[0]] + s[1..];
      }
    }
  }

  /** Round trip the other way: splitting the join of a non-empty list of
      separator-free pieces gives the pieces back. */
  lemma {:induction false} SplitJoin(parts: seq<string>, sep: char)
    requires |parts| >= 1
    requires forall k :: 0 <= k < |parts| ==> sep !in parts[k]
    ensures Split(Join(parts, sep), sep) == parts
  {
    if |parts| == 1 {
      SplitNoSeparator(parts[0], sep);
    } else {
      SplitJoin(parts[1..], sep);
      SplitAtFirstSeparator(parts[0], Join(parts[1..], sep), sep);
      assert [parts[0]] + parts[1..] == parts;
    }
  }

  /** `reader.result.split(',')[1]`, rejected when it is `undefined` (fewer
      than two pieces) or the empty string. */
  function ExtractPayload(dataUrl: string): (r: Result<string, string>)
    ensures r.Ok? ==> r.value != "" && ',' !in r.value
    ensures r.Err? ==> r.error == NoBase64Message
  {
    var parts := Split(dataUrl, ',');
    if |parts| < 2 || parts[1] == "" then Err(NoBase64Message) else Ok(parts[1])
  }

  /** Input without a comma has no payload and is rejected. */
  lemma NoCommaRejected(dataUrl: string)
    requires ',' !in dataUrl
    ensures ExtractPayload(dataUrl) == Err(NoBase64Message)
  {
    SplitNoSeparator(dataUrl, ',');
  }

  /** With the first comma at `i` and the next comma (or the end) at `j`,
      the payload is the text strictly between them, and it is rejected
      exactly when that text is empty. Together with `NoCommaRejected` this
      covers every input. */
  lemma PayloadBetweenFirstCommas(dataUrl: string, i: nat, j: nat)
    requires i < j <= |dataUrl| && dataUrl[i] == ','
    requires forall k :: 0 <= k < i ==> dataUrl[k] != ','
    requires forall k :: i < k < j ==> dataUrl[k] != ','
    requires j == |dataUrl| || dataUrl[j] == ','
    ensures ExtractPayload(dataUrl) ==
              if i + 1 == j then Err(NoBase64Message) else Ok(dataUrl[i + 1..j])
  {
    var head, mid, tail := dataUrl[..i], dataUrl[i + 1..j], dataUrl[j..];
    assert ',' !in head by {
      forall k | 0 <= k < |head| ensures head[k] != ',' { assert head[k] == dataUrl[k]; }
    }
    assert ',' !in mid by {
      forall k | 0 <= k < |mid| ensures mid[k] != ',' { assert mid[k] == dataUrl[i + 1 + k]; }
    }
    assert dataUrl == head + [','] + dataUrl[i + 1..];
    SplitAtFirstSeparator(head, dataUrl[i + 1..], ',');
    assert dataUrl[i + 1..] == mid + tail;
    SplitPrefix(mid, tail, ',');
    assert Split(tail, ',')[0] == "" by {
      if tail != [] {
        assert tail[0] == ',';
      }
    }
    assert mid + "" == mid;
  }

  /** Round trip: a comma-free header, a comma, then a non-empty comma-free
      payload gives that payload back. */
  lemma ExtractRoundTrip(header: string, payload: string)
    requires ',' !in header && ',' !in payload && payload != ""
    ensures ExtractPayload(header + "," + payload) == Ok(payload)
  {
    SplitJoin([header, payload], ',');
    assert Join([header, payload], ',') == header + "," + payload by {
      assert Join([payload], ',') == payload;
    }
  }

  /** The `onload` handler of `fileToGenerativePart`: a non-string result is
      rejected before any splitting; otherwise the payload is extracted and
      paired with the file's declared media type. */
  function FileToGenerativePart(file: FileInfo, result: ReaderResult): (r: Result<GenerativePart, string>)
    ensures result.OtherResult? ==> r == Err(NotAStringMessage)
    ensures result.StringResult? ==> (r.Ok? <==> ExtractPayload(result.text).Ok?)
    ensures r.Ok? ==> r.value.inlineData.mimeType == file.mimeType
    ensures result.StringResult? && r.Ok? ==> r.value.inlineData.data == ExtractPayload(result.text).value
    ensures r.Ok? ==> r.value.inlineData.data != "" && ',' !in r.value.inlineData.data
    ensures r.Err? ==> r.error == NotAStringMessage || r.error == NoBase64Message
  {
    match result
    case OtherResult => Err(NotAStringMessage)
    case StringResult(text) =>
      match ExtractPayload(text)
      case Err(e) => Err(e)
      case Ok(data) => Ok(GenerativePart(InlineData(data, file.mimeType)))
  }

  /** End to end: reading a data URL `header,payload` yields the payload
      with the file's own media type. */
  lemma GenerativePartRoundTrip(file: FileInfo, header: string, payload: string)
    requires ',' !in header && ',' !in payload && payload != ""
    ensures FileToGenerativePart(file, StringResult(header + "," + payload))
            == Ok(GenerativePart(InlineData(payload, file.mimeType)))
  {
    ExtractRoundTrip(header, payload);
  }
}
