/** The five control messages peers exchange over a replication
    connection, and the textual encoding they travel in. The encoding
    (encoding/json in the original program) is not modelled byte by byte:
    a Codec is any pair of marshal and unmarshal functions. As with
    json.Unmarshal into a destination value, the unmarshal function is
    told which schema the caller expects. The promises of the JSON library
    are predicates on the pair, which the properties that rely on them
    take as hypotheses. */
module Messages {
  import opened Base
  import opened Wire

  type int64 = n: int | -0x8000_0000_0000_0000 <= n < 0x8000_0000_0000_0000

  datatype Message =
    | BeginReplicationRequest(device: string, partition: string, needHashes: bool)
    | BeginReplicationResponse(hashes: map<string, string>)
    | SyncFileRequest(path: string, xattrs: string, size: int64)
    | SyncFileResponse(fileExists: bool, newerExists: bool, goAhead: bool, msg: string)
    | FileUploadResponse(success: bool, msg: string)

  /** The schema of a message: the Go type of the destination a receiver
      passes to RecvMessage. */
  datatype Kind =
    | BeginReplicationRequestKind
    | BeginReplicationResponseKind
    | SyncFileRequestKind
    | SyncFileResponseKind
    | FileUploadResponseKind

  function KindOf(m: Message): Kind {
    match m
    case BeginReplicationRequest(_, _, _) => BeginReplicationRequestKind
    case BeginReplicationResponse(_) => BeginReplicationResponseKind
    case SyncFileRequest(_, _, _) => SyncFileRequestKind
    case SyncFileResponse(_, _, _, _) => SyncFileResponseKind
    case FileUploadResponse(_, _) => FileUploadResponseKind
  }

  /** json.Marshal (None when it reports an error) and json.Unmarshal into
      a destination of the given schema (None when it reports an error). */
  datatype Codec = Codec(marshal: Message -> Option<Bytes>, unmarshal: (Kind, Bytes) -> Option<Message>)

  /** Unmarshalling fills a value of the schema it was asked for. */
  ghost predicate Typed(c: Codec) {
    forall k, b :: c.unmarshal(k, b).Some? ==> KindOf(c.unmarshal(k, b).value) == k
  }

  /** The codec gives back every value it managed to encode, when the
      receiver expects the schema the value was sent as. */
  ghost predicate RoundTrips(c: Codec) {
    forall m :: c.marshal(m).Some? ==> c.unmarshal(KindOf(m), c.marshal(m).value) == Some(m)
  }

  /** Zero bytes are not a JSON text, so unmarshalling them fails. */
  ghost predicate RejectsEmpty(c: Codec) {
    forall k :: c.unmarshal(k, []) == None
  }

  /** The decode step of RecvMessage applied to a payload the framing
      layer delivered, for a destination of schema k. */
  function Decode(c: Codec, k: Kind, payload: Bytes): (r: Result<Message, Error>)
    ensures r.Ok? <==> c.unmarshal(k, payload).Some?
    ensures r.Ok? ==> c.unmarshal(k, payload) == Some(r.value)
    ensures r.Err? ==> r.error == JsonError
    ensures Typed(c) && r.Ok? ==> KindOf(r.value) == k
  {
    match c.unmarshal(k, payload)
    case Some(m) => Ok(m)
    case None => Err(JsonError)
  }

  /** The hypotheses can hold together and still let a message through:
      a codec that encodes one request as the byte 1 and reads only that
      byte back, as that request, meets all three. */
  lemma CodecHypothesesSatisfiable(m: Message)
    ensures exists c :: Typed(c) && RoundTrips(c) && RejectsEmpty(c) && c.marshal(m).Some?
  {
    var c := Codec(
      x => if x == m then Some([1]) else None,
      (k, b) => if k == KindOf(m) && b == [1] then Some(m) else None);
    assert Typed(c);
    assert RoundTrips(c);
    assert RejectsEmpty(c);
    assert c.marshal(m).Some?;
  }
}
