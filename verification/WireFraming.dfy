/** The daemon's request framing: a length-prefixed JSON header followed by the raw
    contents of the files it announces, read from a socket that may hand the stream over
    in pieces of any size.  JSON and base64 are given as encoders with decoders that undo
    them. */
module WireFraming {
  import opened Bytes
  import opened Options

  datatype Error = ConnectionClosed | BadMessage | BadEncoding | TooLong

  datatype Result<T> = Success(value: T) | Failure(error: Error) {
    predicate IsFailure() {
      Failure?
    }

    function PropagateFailure<U>(): Result<U>
      requires Failure?
    {
      Failure(error)
    }

    function Extract(): T
      requires Success?
    {
      value
    }
  }

  // ----- requests and their dictionaries ------------------------------------------------------

  datatype LoadOptions = LoadOptions(attachType: string, attachTarget: string, pinPath: Option<string>)

  /** `data` travels outside the JSON header. */
  datatype FileInfo = FileInfo(name: string, size: int, encoding: string, data: Option<seq<byte>>)

  datatype Request<J> = Request(version: string, requestId: string, action: string, retainResults: bool,
                                files: seq<(string, FileInfo)>, options: J, loadOptions: Option<LoadOptions>)

  datatype FileMeta = FileMeta(name: string, size: int, encoding: string)

  /** The dictionary of the JSON header; every key may be missing. */
  datatype Dict<J> = Dict(version: Option<string>, requestId: Option<string>, action: Option<string>,
                          retainResults: Option<bool>, files: Option<seq<(string, FileMeta)>>,
                          options: Option<J>, loadOptions: Option<LoadOptions>)

  function GetOr<T>(o: Option<T>, default: T): T {
    if o.Some? then o.value else default
  }

  function Metas(files: seq<(string, FileInfo)>): (r: seq<(string, FileMeta)>)
    ensures |r| == |files|
  {
    seq(|files|, i requires 0 <= i < |files| =>
        (files[i].0, FileMeta(files[i].1.name, files[i].1.size, files[i].1.encoding)))
  }

  function ToDict<J>(r: Request<J>): (d: Dict<J>)
  {
    Dict(Some(r.version), Some(r.requestId), Some(r.action), Some(r.retainResults),
         Some(Metas(r.files)), Some(r.options), r.loadOptions)
  }

  function FileInfos(metas: seq<(string, FileMeta)>): (r: seq<(string, FileInfo)>)
    ensures |r| == |metas|
  {
    seq(|metas|, i requires 0 <= i < |metas| =>
        (metas[i].0, FileInfo(metas[i].1.name, metas[i].1.size, metas[i].1.encoding, None)))
  }

  function FromDict<J>(d: Dict<J>, noOptions: J): (r: Request<J>)
  {
    Request(GetOr(d.version, "1.0"), GetOr(d.requestId, ""), GetOr(d.action, "load"), GetOr(d.retainResults, true),
            FileInfos(GetOr(d.files, [])), GetOr(d.options, noOptions), d.loadOptions)
  }

  function WithoutData(files: seq<(string, FileInfo)>): (r: seq<(string, FileInfo)>)
    ensures |r| == |files|
  {
    seq(|files|, i requires 0 <= i < |files| => (files[i].0, files[i].1.(data := None)))
  }

  /** The request without the file contents. */
  function Header<J>(r: Request<J>): (h: Request<J>)
  {
    r.(files := WithoutData(r.files))
  }

  /** Everything but the file contents survives the dictionary. */
  lemma DictRoundTrip<J>(r: Request<J>, noOptions: J)
    ensures FromDict(ToDict(r), noOptions) == Header(r)
  {
    assert FileInfos(Metas(r.files)) == Header(r).files;
  }

  /** What a header that leaves everything out stands for. */
  lemma DictDefaults<J>(noOptions: J)
    ensures FromDict(Dict(None, None, None, None, None, None, None), noOptions) ==
            Request("1.0", "", "load", true, [], noOptions, None)
  {
  }

  // ----- length-prefixed messages -----------------------------------------------------------------

  function Be32Bytes(v: u32): (b: seq<byte>)
    ensures |b| == 4
  {
    var w := v / 0x100;
    var x := w / 0x100;
    [x / 0x100, x % 0x100, w % 0x100, v % 0x100]
  }

  function Be32(b: seq<byte>): (v: u32)
    requires |b| == 4
  {
    var b0: int, b1: int, b2: int, b3: int := b[0], b[1], b[2], b[3];
    ((b0 * 0x100 + b1) * 0x100 + b2) * 0x100 + b3
  }

  lemma Be32RoundTrip(v: u32)
    ensures Be32(Be32Bytes(v)) == v
  {
  }

  /** A length that does not fit four bytes is an error. */
  function SerializeMessage(json: seq<byte>): (r: Result<seq<byte>>)
  {
    if |json| >= 0x1_0000_0000 then Failure(TooLong) else Success(Be32Bytes(|json|) + json)
  }

  function DeserializeMessage(data: seq<byte>): (r: Result<seq<byte>>)
  {
    if |data| < 4 then Failure(BadMessage)
    else
      var length := Be32(data[..4]);
      if |data| < 4 + length then Failure(BadMessage) else Success(data[4..4 + length])
  }

  lemma MessageRoundTrip(json: seq<byte>)
    requires |json| < 0x1_0000_0000
    ensures DeserializeMessage(SerializeMessage(json).value) == Success(json)
  {
    var data := SerializeMessage(json).value;
    assert data[..4] == Be32Bytes(|json|);
    Be32RoundTrip(|json|);
    assert data[4..4 + |json|] == json;
  }

  /** On the wire the length comes first, most significant byte first. */
  lemma MessageLayout(json: seq<byte>)
    requires |json| < 0x1_0000_0000
    ensures SerializeMessage(json).Success?
    ensures var m, n := SerializeMessage(json).value, |json|;
            && m == [n / 0x100_0000, n / 0x1_0000 % 0x100, n / 0x100 % 0x100, n % 0x100] + json
  {
    var n := |json|;
    assert n / 0x100 / 0x100 == n / 0x1_0000 && n / 0x1_0000 / 0x100 == n / 0x100_0000;
  }

  // ----- what a reader of the whole stream would parse ------------------------------------------------

  /** The first n bytes and what follows them. */
  function Take(stream: seq<byte>, n: int): (r: Result<(seq<byte>, seq<byte>)>)
  {
    var k := if n < 0 then 0 else n;
    if |stream| < k then Failure(ConnectionClosed) else Success((stream[..k], stream[k..]))
  }

  function ParseMessage(stream: seq<byte>): (r: Result<(seq<byte>, seq<byte>)>)
  {
    var (prefix, rest) :- Take(stream, 4);
    var (body, rest') :- Take(rest, if |prefix| == 4 then Be32(prefix) else 0);
    var json :- DeserializeMessage(prefix + body);
    Success((json, rest'))
  }

  type Decoder = seq<byte> -> Option<seq<byte>>

  function DecodeFile(encoding: string, raw: seq<byte>, unbase64: Decoder): (r: Result<seq<byte>>)
  {
    if encoding != "base64" then Success(raw)
    else if unbase64(raw).Some? then Success(unbase64(raw).value)
    else Failure(BadEncoding)
  }

  function ParseFiles(files: seq<(string, FileInfo)>, stream: seq<byte>, unbase64: Decoder)
    : (r: Result<(seq<(string, FileInfo)>, seq<byte>)>)
  {
    if files == [] then Success(([], stream))
    else
      var (raw, rest) :- Take(stream, files[0].1.size);
      var data :- DecodeFile(files[0].1.encoding, raw, unbase64);
      var (others, rest') :- ParseFiles(files[1..], rest, unbase64);
      Success(([(files[0].0, files[0].1.(data := Some(data)))] + others, rest'))
  }

  function ParseRequest<J>(stream: seq<byte>, loads: seq<byte> -> Option<Dict<J>>, unbase64: Decoder, noOptions: J)
    : (r: Result<(Request<J>, seq<byte>)>)
  {
    var (json, rest) :- ParseMessage(stream);
    if loads(json).None? then Failure(BadMessage)
    else
      var request := FromDict(loads(json).value, noOptions);
      var (files, rest') :- ParseFiles(request.files, rest, unbase64);
      Success((request.(files := files), rest'))
  }

  // ----- reading from the socket -------------------------------------------------------------------------

  class Socket {
    /** What the peer has sent and not been read yet; it closes afterwards. */
    var stream: seq<byte>

    constructor (stream: seq<byte>)
      ensures this.stream == stream
    {
      this.stream := stream;
    }

    /** At least one byte unless the stream has ended, and as many as the network likes. */
    method Recv(n: nat) returns (chunk: seq<byte>)
      requires n > 0
      modifies this
      ensures chunk + stream == old(stream) && |chunk| <= n
      ensures chunk == [] <==> old(stream) == []
    {
      if stream == [] {
        return [];
      }
      var k :| 1 <= k <= n && k <= |stream|;
      chunk := stream[..k];
      stream := stream[k..];
    }

    /** The receive loop: ask for at most `atOnce` bytes until all have come. */
    method ReadExactly(n: int, atOnce: nat) returns (r: Result<seq<byte>>)
      requires atOnce > 0
      modifies this
      ensures match Take(old(stream), n)
              case Success((bytes, rest)) => r == Success(bytes) && stream == rest
              case Failure(e) => r == Failure(e) && stream == []
    {
      var data := [];
      while |data| < n
        invariant data + stream == old(stream)
        invariant |data| <= if n < 0 then 0 else n
        decreases n - |data|
      {
        ghost var before := data;
        var chunk := Recv(if n - |data| < atOnce then n - |data| else atOnce);
        if chunk == [] {
          assert data == old(stream);
          return Failure(ConnectionClosed);
        }
        data := data + chunk;
        assert data + stream == before + (chunk + stream);
      }
      assert old(stream)[..|data|] == data && old(stream)[|data|..] == stream;
      return Success(data);
    }

    method ReadMessage() returns (r: Result<seq<byte>>)
      modifies this
      ensures match ParseMessage(old(stream))
              case Success((json, rest)) => r == Success(json) && stream == rest
              case Failure(e) => r == Failure(e)
    {
      hide Be32;
      var prefix := ReadExactly(4, 4);
      if prefix.Failure? {
        return Failure(prefix.error);
      }
      var body := ReadExactly(Be32(prefix.value), 4096);
      if body.Failure? {
        return Failure(body.error);
      }
      r := DeserializeMessage(prefix.value + body.value);
    }

    /** The daemon's reader: header first, then each announced file in order. */
    method ReceiveRequest<J>(loads: seq<byte> -> Option<Dict<J>>, unbase64: Decoder, noOptions: J)
      returns (r: Result<Request<J>>)
      modifies this
      ensures match ParseRequest(old(stream), loads, unbase64, noOptions)
              case Success((request, rest)) => r == Success(request) && stream == rest
              case Failure(e) => r == Failure(e)
    {
      hide ParseMessage;
      var json := ReadMessage();
      if json.Failure? {
        return Failure(json.error);
      }
      if loads(json.value).None? {
        return Failure(BadMessage);
      }
      var request := FromDict(loads(json.value).value, noOptions);
      var files := ReadFiles(request.files, unbase64);
      if files.Failure? {
        return Failure(files.error);
      }
      return Success(request.(files := files.value));
    }

    method ReadFiles(files: seq<(string, FileInfo)>, unbase64: Decoder) returns (r: Result<seq<(string, FileInfo)>>)
      modifies this
      ensures match ParseFiles(files, old(stream), unbase64)
              case Success((all, rest)) => r == Success(all) && stream == rest
              case Failure(e) => r == Failure(e)
    {
      var done: seq<(string, FileInfo)> := [];
      ghost var goal := ParseFiles(files, stream, unbase64);
      assert files[0..] == files && (goal.Success? ==> [] + goal.value.0 == goal.value.0);
      for i := 0 to |files|
        invariant |done| == i
        invariant goal == Joined(done, ParseFiles(files[i..], stream, unbase64))
      {
        ghost var start := stream;
        assert files[i..][0] == files[i] && files[i..][1..] == files[i + 1..];
        var raw := ReadExactly(files[i].1.size, 4096);
        if raw.Failure? {
          return Failure(raw.error);
        }
        var data := DecodeFile(files[i].1.encoding, raw.value, unbase64);
        if data.Failure? {
          return Failure(data.error);
        }
        JoinedStep(done, (files[i].0, files[i].1.(data := Some(data.value))), ParseFiles(files[i + 1..], stream, unbase64));
        done := done + [(files[i].0, files[i].1.(data := Some(data.value)))];
      }
      assert files[|files|..] == [] && done + [] == done;
      return Success(done);
    }
  }

  /** Files already read in front of those still to come. */
  ghost function Joined(done: seq<(string, FileInfo)>, r: Result<(seq<(string, FileInfo)>, seq<byte>)>)
    : Result<(seq<(string, FileInfo)>, seq<byte>)>
  {
    match r
    case Success((all, rest)) => Success((done + all, rest))
    case Failure(e) => Failure(e)
  }

  lemma JoinedStep(done: seq<(string, FileInfo)>, f: (string, FileInfo), r: Result<(seq<(string, FileInfo)>, seq<byte>)>)
    ensures Joined(done + [f], r) == Joined(done, Joined([f], r))
  {
    if r.Success? {
      assert (done + [f]) + r.value.0 == done + ([f] + r.value.0);
    }
  }

  // ----- what is sent is what is received --------------------------------------------------------------------

  type Encoder = seq<byte> -> seq<byte>

  /** The bytes of a file on the wire. */
  function FileBytes(f: FileInfo, base64: Encoder): (b: seq<byte>)
    requires f.data.Some?
  {
    if f.encoding == "base64" then base64(f.data.value) else f.data.value
  }

  /** Every file is there, with the size it has on the wire. */
  predicate Sendable(files: seq<(string, FileInfo)>, base64: Encoder) {
    forall i :: 0 <= i < |files| ==> files[i].1.data.Some? && files[i].1.size == |FileBytes(files[i].1, base64)|
  }

  function AllFileBytes(files: seq<(string, FileInfo)>, base64: Encoder): (b: seq<byte>)
    requires Sendable(files, base64)
  {
    if files == [] then [] else FileBytes(files[0].1, base64) + AllFileBytes(files[1..], base64)
  }

  lemma {:induction false} FilesRoundTrip(files: seq<(string, FileInfo)>, base64: Encoder, unbase64: Decoder, rest: seq<byte>)
    requires Sendable(files, base64) && forall b :: unbase64(base64(b)) == Some(b)
    ensures ParseFiles(WithoutData(files), AllFileBytes(files, base64) + rest, unbase64) == Success((files, rest))
  {
    if files != [] {
      hide AllFileBytes, FileBytes, WithoutData, ParseFiles, Take;
      var f, others := files[0], files[1..];
      assert Sendable(others, base64);
      var bytes, tail := FileBytes(f.1, base64), AllFileBytes(others, base64) + rest;
      FilesRoundTrip(others, base64, unbase64, rest);
      SentStep(files, base64, rest);
      assert Decoded(f.1, base64, unbase64);
      ParseFilesStep(files, bytes, tail, unbase64, f.1.data.value, others, rest);
    } else {
      assert [] + rest == rest;
    }
  }

  ghost predicate Decoded(f: FileInfo, base64: Encoder, unbase64: Decoder)
    requires f.data.Some?
  {
    DecodeFile(f.encoding, FileBytes(f, base64), unbase64) == Success(f.data.value)
  }

  lemma SentStep(files: seq<(string, FileInfo)>, base64: Encoder, rest: seq<byte>)
    requires Sendable(files, base64) && files != []
    ensures AllFileBytes(files, base64) + rest ==
            FileBytes(files[0].1, base64) + (AllFileBytes(files[1..], base64) + rest)
  {
  }

  lemma TakeExactly(bytes: seq<byte>, tail: seq<byte>)
    ensures Take(bytes + tail, |bytes|) == Success((bytes, tail))
  {
    assert (bytes + tail)[..|bytes|] == bytes && (bytes + tail)[|bytes|..] == tail;
  }

  /** One file off the front of the stream. */
  lemma ParseFilesStep(files: seq<(string, FileInfo)>, bytes: seq<byte>, tail: seq<byte>, unbase64: Decoder,
                       data: seq<byte>, others: seq<(string, FileInfo)>, rest: seq<byte>)
    requires files != [] && files[0].1.size == |bytes| && files[0].1.data == Some(data)
    requires DecodeFile(files[0].1.encoding, bytes, unbase64) == Success(data)
    requires others == files[1..] && ParseFiles(WithoutData(others), tail, unbase64) == Success((others, rest))
    ensures ParseFiles(WithoutData(files), bytes + tail, unbase64) == Success((files, rest))
  {
    hide Take, DecodeFile;
    TakeExactly(bytes, tail);
    var w := WithoutData(files);
    assert w[1..] == WithoutData(others);
    assert [(w[0].0, w[0].1.(data := Some(data)))] + others == files;
  }

  /** For every request whose JSON is shorter than 2^32 bytes, every list of files and
      whatever follows on the stream: the reader rebuilds the request with its file
      contents in order and has consumed exactly what was sent. */
  lemma RequestRoundTrip<J(!new)>(request: Request<J>, noOptions: J, dumps: Dict<J> -> seq<byte>,
      loads: seq<byte> -> Option<Dict<J>>, base64: Encoder, unbase64: Decoder, rest: seq<byte>)
    requires loads(dumps(ToDict(request))) == Some(ToDict(request)) && forall b :: unbase64(base64(b)) == Some(b)
    requires Sendable(request.files, base64)
    requires |dumps(ToDict(request))| < 0x1_0000_0000
    ensures var sent := SerializeMessage(dumps(ToDict(request))).value + AllFileBytes(request.files, base64) + rest;
            ParseRequest(sent, loads, unbase64, noOptions) == Success((request, rest))
  {
    hide Be32, Be32Bytes, AllFileBytes, ParseFiles;
    var json := dumps(ToDict(request));
    var tail := AllFileBytes(request.files, base64) + rest;
    var message := SerializeMessage(json).value;
    var sent := message + AllFileBytes(request.files, base64) + rest;
    assert sent == message + tail;
    MessageParses(json, tail);
    DictRoundTrip(request, noOptions);
    FilesRoundTrip(request.files, base64, unbase64, rest);
  }

  lemma MessageParses(json: seq<byte>, tail: seq<byte>)
    requires |json| < 0x1_0000_0000
    ensures ParseMessage(SerializeMessage(json).value + tail) == Success((json, tail))
  {
    hide Be32, Be32Bytes;
    var prefix := Be32Bytes(|json|);
    var stream := prefix + json + tail;
    Be32RoundTrip(|json|);
    assert stream[..4] == prefix && stream[4..] == json + tail;
    assert (json + tail)[..|json|] == json && (json + tail)[|json|..] == tail;
    MessageRoundTrip(json);
  }
}
