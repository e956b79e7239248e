/**
 Shrine's refresh_metadata plugin: `UploadedFile#refresh_metadata!` asks the
 uploader to extract metadata again and merges the result into the file's
 stored metadata. When the file already has an open stream (`@io`) the
 extraction reads from it; otherwise the extraction runs inside `open { }`,
 which acquires a stream from storage for the duration of the block and
 releases it on every exit path.

 The uploader's extractor and the storage's stream opener are code this model
 does not see; they are parameters, and may raise (a `Failure` result).
 */
module RefreshMetadata {
  import opened Wrappers
  import opened Hashes

  /** The Ruby values a data or metadata hash holds (floats are left out). */
  datatype Value =
    | Nil
    | Boolean(b: bool)
    | Integer(i: int)
    | Str(s: string)
    | List(items: seq<Value>)
    | HashValue(entries: Hash<string, Value>)

  /** An open content stream; only its identity matters here. */
  datatype Stream = Stream(id: nat)

  /** An exception raised by storage or by the extractor. */
  datatype Error = Raised(message: string)

  /** Shrine::UploadedFile: the `@data` hash and the stream `@io`, if one is open. */
  datatype UploadedFile = UploadedFile(data: Hash<string, Value>, io: Option<Stream>)

  /**
   `uploader.extract_metadata(file, context)`: the metadata hash, or the error
   it raised. The context is any value of type C; the model only passes it on.
   */
  type Extractor<-C> = (UploadedFile, C) -> Result<Hash<string, Value>, Error>

  /** Opening the file's content from storage: a fresh stream, or the error storage raised. */
  type Opener = UploadedFile -> Result<Stream, Error>

  /** What a refresh did besides replacing `@data`: streams acquired and released, and the arguments of each extractor call. */
  datatype Effects<C> = Effects(opens: nat, closes: nat, extractions: seq<(UploadedFile, C)>)

  /** The file after a refresh, the call's return value (the new data hash) or the error it raised, and its effects. */
  datatype Refreshed<C> = Refreshed(file: UploadedFile, result: Result<Hash<string, Value>, Error>, effects: Effects<C>)

  /** `data["metadata"]` exists and is a hash, as the file's `metadata` accessor expects. */
  predicate HasMetadata(data: Hash<string, Value>) {
    Get(data, "metadata").Some? && Get(data, "metadata").value.HashValue?
  }

  /** The file's stored metadata hash. */
  function MetadataOf(data: Hash<string, Value>): Hash<string, Value>
    requires HasMetadata(data)
  {
    Get(data, "metadata").value.entries
  }

  /**
   The data hash `refresh_metadata!` assigns:
   `data.merge("metadata" => metadata.merge(extracted))`.
   */
  function RefreshedData(data: Hash<string, Value>, extracted: Hash<string, Value>): (r: Hash<string, Value>)
    requires HasMetadata(data)
    // the top level keeps its keys, in order, and every entry but "metadata"
    ensures Keys(r) == Keys(data)
    ensures forall k :: k in KeySet(data) && k != "metadata" ==> Get(r, k) == Get(data, k)
    ensures HasMetadata(r)
    // the new metadata has the old keys and the extracted ones
    ensures KeySet(MetadataOf(r)) == KeySet(MetadataOf(data)) + KeySet(extracted)
    // extracted values win, wholesale
    ensures forall k :: k in KeySet(extracted) ==> Get(MetadataOf(r), k) == Get(extracted, k)
    // metadata keys the extraction did not produce keep their old values
    ensures forall k :: k in KeySet(MetadataOf(data)) && k !in KeySet(extracted) ==>
              Get(MetadataOf(r), k) == Get(MetadataOf(data), k)
    // old keys stay in place, new keys follow in extraction order
    ensures Keys(MetadataOf(r)) == Keys(MetadataOf(data)) + Absent(Keys(extracted), KeySet(MetadataOf(data)))
  {
    var merged := Merge(MetadataOf(data), extracted);
    MergeKeyOrder(MetadataOf(data), extracted);
    var update: Hash<string, Value> := [("metadata", HashValue(merged))];
    assert Get(update, "metadata") == Some(HashValue(merged));
    MergeKeyOrder(data, update);
    assert Keys(update) == ["metadata"];
    Merge(data, update)
  }

  /** `UploadedFile#refresh_metadata!(context)`. */
  function Refresh<C>(file: UploadedFile, context: C, extract: Extractor<C>, open: Opener): (r: Refreshed<C>)
    requires HasMetadata(file.data)
    // every stream acquired is released, whether or not extraction raised
    ensures r.effects.closes == r.effects.opens
    ensures r.file.io == file.io
    ensures HasMetadata(r.file.data)
    // with `@io` present, storage is not touched and the file itself is read
    ensures file.io.Some? ==> r.effects.opens == 0 && r.effects.extractions == [(file, context)]
    // without it, a stream the storage opens is the extractor's `@io`, and is the only one opened
    ensures file.io.None? && open(file).Success? ==>
              && r.effects.opens == 1
              && r.effects.extractions == [(file.(io := Some(open(file).value)), context)]
    // a storage failure is raised before any extraction
    ensures file.io.None? && open(file).Failure? ==>
              && r.effects.opens == 0
              && r.effects.extractions == []
              && r.result == Failure(open(file).error)
    // an extraction failure is raised and `@data` stays as it was
    ensures r.result.Failure? ==> r.file == file
    ensures forall call :: call in r.effects.extractions && extract(call.0, call.1).Failure? ==>
              r.result == Failure(extract(call.0, call.1).error)
    // the refresh succeeds exactly when the one extraction ran and did not raise
    ensures r.result.Success? <==>
              && |r.effects.extractions| == 1
              && extract(r.effects.extractions[0].0, r.effects.extractions[0].1).Success?
    // on success that extraction's result is merged into `@data`, which is also returned
    ensures r.result.Success? ==>
              && var call := r.effects.extractions[0];
              && r.file == file.(data := RefreshedData(file.data, extract(call.0, call.1).value))
              && r.result.value == r.file.data
  {
    var opens := if file.io.Some? then 0 else 1;
    var reading: Result<UploadedFile, Error> :=
      if file.io.Some? then Success(file)
      else match open(file)
        case Success(stream) => Success(file.(io := Some(stream)))
        case Failure(e) => Failure(e);
    match reading
    case Failure(e) => Refreshed(file, Failure(e), Effects(0, 0, []))
    case Success(reading) =>
      // leaving an `open` block closes its stream and resets `@io` to nil, also when extraction raised
      var effects := Effects(opens, opens, [(reading, context)]);
      match extract(reading, context)
      case Failure(e) => Refreshed(file, Failure(e), effects)
      case Success(extracted) =>
        var data := RefreshedData(file.data, extracted);
        Refreshed(file.(data := data), Success(data), effects)
  }

  /** Two files that differ at most in their metadata: same stream, same top-level keys, same other entries. */
  predicate SameButMetadata(f: UploadedFile, g: UploadedFile) {
    && f.io == g.io
    && Keys(f.data) == Keys(g.data)
    && forall k :: k in KeySet(f.data) && k != "metadata" ==> Get(f.data, k) == Get(g.data, k)
  }

  /** An extractor that, given this context, is deterministic and does not read the stored metadata. */
  ghost predicate ExtractorIgnoresMetadata<C>(extract: Extractor<C>, context: C) {
    forall f, g :: SameButMetadata(f, g) ==> extract(f, context) == extract(g, context)
  }

  /** A storage whose streams do not depend on the stored metadata. */
  ghost predicate OpenerIgnoresMetadata(open: Opener) {
    forall f, g :: SameButMetadata(f, g) ==> open(f) == open(g)
  }

  /** Merging the same extracted hash into refreshed data a second time changes nothing. */
  lemma RefreshedDataIdempotent(data: Hash<string, Value>, extracted: Hash<string, Value>)
    requires HasMetadata(data)
    ensures RefreshedData(RefreshedData(data, extracted), extracted) == RefreshedData(data, extracted)
  {
    var merged := Merge(MetadataOf(data), extracted);
    var update: Hash<string, Value> := [("metadata", HashValue(merged))];
    assert Get(update, "metadata") == Some(HashValue(merged));
    var once := Merge(data, update);
    assert MetadataOf(once) == merged;
    MergeIdempotent(MetadataOf(data), extracted);
    MergeIdempotent(data, update);
  }

  /**
   With an extractor and a storage that ignore the stored metadata,
   refreshing a refreshed file leaves its data, and the value returned, as
   they were after the first refresh.
   */
  lemma RefreshIdempotent<C>(file: UploadedFile, context: C, extract: Extractor<C>, open: Opener)
    requires HasMetadata(file.data)
    requires ExtractorIgnoresMetadata(extract, context)
    requires OpenerIgnoresMetadata(open)
    ensures var once := Refresh(file, context, extract, open);
            var twice := Refresh(once.file, context, extract, open);
            twice.file == once.file && twice.result == once.result
  {
    var once := Refresh(file, context, extract, open);
    if once.result.Success? {
      var refreshed := once.file;
      assert SameButMetadata(refreshed, file);
      if file.io.Some? {
        assert extract(refreshed, context) == extract(file, context);
      } else {
        var stream := open(file).value;
        assert open(refreshed) == open(file);
        assert SameButMetadata(refreshed.(io := Some(stream)), file.(io := Some(stream)));
      }
      RefreshedDataIdempotent(file.data, extract(once.effects.extractions[0].0, context).value);
    }
  }

  /** The merge is shallow: a nested metadata hash is replaced by the extracted value, not merged with it. */
  lemma ShallowMergeExample()
    ensures RefreshedData(
              [("metadata", HashValue([("dimensions", HashValue([("width", Integer(640)), ("height", Integer(480))]))]))],
              [("dimensions", HashValue([("width", Integer(800))]))])
         == [("metadata", HashValue([("dimensions", HashValue([("width", Integer(800))]))]))]
  {
    var data: Hash<string, Value> :=
      [("metadata", HashValue([("dimensions", HashValue([("width", Integer(640)), ("height", Integer(480))]))]))];
    var extracted: Hash<string, Value> := [("dimensions", HashValue([("width", Integer(800))]))];
    var expected: Hash<string, Value> := [("metadata", HashValue(extracted))];
    var r := RefreshedData(data, extracted);
    assert Keys(MetadataOf(data)) == Keys(extracted) == ["dimensions"];
    assert Absent(["dimensions"], {"dimensions"}) == [];
    HashesEqual(MetadataOf(r), extracted);
    assert Keys(data) == Keys(expected) == ["metadata"];
    HashesEqual(r, expected);
  }

  /**
   Extracted values win, other old keys stay in place, new keys are appended:
   old size and checksum, extracted size and MIME type.
   */
  lemma RefreshExample(id: string, oldSize: int, newSize: int, checksum: string, mimeType: string)
    ensures var data: Hash<string, Value> :=
              [("id", Str(id)), ("metadata", HashValue([("size", Integer(oldSize)), ("checksum", Str(checksum))]))];
            && HasMetadata(data)
            && RefreshedData(data, [("size", Integer(newSize)), ("mime_type", Str(mimeType))])
               == [("id", Str(id)),
                   ("metadata", HashValue([("size", Integer(newSize)), ("checksum", Str(checksum)), ("mime_type", Str(mimeType))]))]
  {
    var metadata: Hash<string, Value> := [("size", Integer(oldSize)), ("checksum", Str(checksum))];
    var data: Hash<string, Value> := [("id", Str(id)), ("metadata", HashValue(metadata))];
    var extracted: Hash<string, Value> := [("size", Integer(newSize)), ("mime_type", Str(mimeType))];
    var merged: Hash<string, Value> :=
      [("size", Integer(newSize)), ("checksum", Str(checksum)), ("mime_type", Str(mimeType))];
    ExampleMetadataEntry(id, metadata);
    MetadataMergeExample(oldSize, newSize, checksum, mimeType);
    MetadataReplacedInPlace(data, extracted);
    assert data[1 := ("metadata", HashValue(merged))] == [("id", Str(id)), ("metadata", HashValue(merged))];
  }

  /** In RefreshExample's data, the metadata is the second entry. */
  lemma ExampleMetadataEntry(id: string, metadata: Hash<string, Value>)
    ensures var data: Hash<string, Value> := [("id", Str(id)), ("metadata", HashValue(metadata))];
            && IndexOf(data, "metadata") == Some(1)
            && HasMetadata(data)
            && MetadataOf(data) == metadata
  {
    var data: Hash<string, Value> := [("id", Str(id)), ("metadata", HashValue(metadata))];
    assert data[0].0 != "metadata" && data[1].0 == "metadata";
  }

  /** Refreshing rewrites the "metadata" entry where it stands and touches no other entry. */
  lemma MetadataReplacedInPlace(data: Hash<string, Value>, extracted: Hash<string, Value>)
    requires HasMetadata(data)
    ensures IndexOf(data, "metadata").Some?
    ensures RefreshedData(data, extracted)
         == data[IndexOf(data, "metadata").value := ("metadata", HashValue(Merge(MetadataOf(data), extracted)))]
  {
    var update: Hash<string, Value> := [("metadata", HashValue(Merge(MetadataOf(data), extracted)))];
    assert RefreshedData(data, extracted) == Merge(data, update);
  }

  /** The metadata half of RefreshExample: Hash#merge of the old metadata with the extracted hash. */
  lemma MetadataMergeExample(oldSize: int, newSize: int, checksum: string, mimeType: string)
    ensures Merge<string, Value>([("size", Integer(oldSize)), ("checksum", Str(checksum))],
                                 [("size", Integer(newSize)), ("mime_type", Str(mimeType))])
         == [("size", Integer(newSize)), ("checksum", Str(checksum)), ("mime_type", Str(mimeType))]
  {
    var metadata: Hash<string, Value> := [("size", Integer(oldSize)), ("checksum", Str(checksum))];
    var extracted: Hash<string, Value> := [("size", Integer(newSize)), ("mime_type", Str(mimeType))];
    var resized: Hash<string, Value> := [("size", Integer(newSize)), ("checksum", Str(checksum))];
    var added: Hash<string, Value> := [("mime_type", Str(mimeType))];
    assert Store(metadata, "size", Integer(newSize)) == resized by {
      assert IndexOf(metadata, "size") == Some(0);
    }
    assert Store(resized, "mime_type", Str(mimeType)) == resized + added by {
      assert resized[0].0 != "mime_type" && resized[1].0 != "mime_type";
      assert IndexOf(resized, "mime_type") == None;
    }
    assert extracted[1..] == added;
    assert Merge(resized, added) == resized + added;
    assert Merge(metadata, extracted) == Merge(resized, added);
  }
}
