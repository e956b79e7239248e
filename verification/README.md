# Shrine `refresh_metadata` plugin, modelled in Dafny

Shrine is a Ruby file-attachment library. Its `refresh_metadata` plugin adds
`UploadedFile#refresh_metadata!(context = {})`: the uploader extracts the
file's metadata again, and the result is merged into the metadata stored in
the file's `@data` hash. The extraction reads the file's content from the
stream in `@io` when one is already open; otherwise it runs inside
`open { ... }`, which opens a stream from storage for the duration of the
block and closes it again on every exit path.

The model has three modules:

- `Wrappers` (`wrappers.dfy`): `Option` and `Result`.
- `Hashes` (`hashes.dfy`): a Ruby `Hash` as an insertion-ordered list of
  entries with unique keys (the subset type `Hash`), with lookup (`Get`),
  `Hash#[]=` (`Store`) and `Hash#merge` (`Merge`). Ruby hashes keep insertion
  order, so the model keeps it too. `ToMap` forgets the order, and
  `MergeIsMapUnion` ties `Merge` to Dafny's right-biased map union `+`.
- `RefreshMetadata` (`refresh_metadata.dfy`): the uploaded file
  (`UploadedFile`: `@data` and `@io`), the value assigned on line 15
  (`RefreshedData`), and the whole method (`Refresh`). The method's result
  records its effects: how many streams were opened and closed, and the
  arguments of every extractor call.

The uploader's `extract_metadata` and the storage's `open` are calls into
code this model does not see. They are parameters of `Refresh`
(`Extractor`, `Opener`). Both return a `Result`, so an exception they raise is
part of the model. On failure `Refresh` leaves the file unchanged and
re-raises the error.

## Model

| member | source | states |
|---|---|---|
| `RefreshMetadata.Refresh` | lib/shrine/plugins/refresh_metadata.rb:7-16 | With `@io` present, nothing is opened and the extractor receives the file itself. Without `@io`, a stream the storage opens is closed again, is the only one opened, and is the `@io` of the file the extractor receives. If storage raises, nothing is opened and the error is re-raised before any extraction. Both branches pass the caller's `context` through unchanged. The refresh succeeds exactly when the one extraction ran and did not raise. An error is re-raised and leaves `@data` unchanged. On success, `@data` becomes the old data with that extraction's result merged into its metadata, and the new data is also the return value. |
| `RefreshMetadata.RefreshedData` | lib/shrine/plugins/refresh_metadata.rb:15 | The top-level keys and their order are unchanged, and every entry other than `"metadata"` keeps its value. The new metadata's key set is the old keys plus the extracted keys. Every extracted key takes the extracted value. Every old key that was not extracted keeps its old value. Old keys stay in place and new keys are appended in extraction order. |
| `RefreshMetadata.MetadataReplacedInPlace` | lib/shrine/plugins/refresh_metadata.rb:15 | The refreshed data equals the old data with only the `"metadata"` entry rewritten, at its existing position. |
| `RefreshMetadata.RefreshedDataIdempotent` | lib/shrine/plugins/refresh_metadata.rb:15 | Merging the same extracted metadata into already refreshed data changes nothing. |
| `RefreshMetadata.RefreshIdempotent` | lib/shrine/plugins/refresh_metadata.rb:7-16 | Suppose the extractor and the storage do not depend on stored metadata. Then refreshing a refreshed file again leaves its data and the return value as they were after the first refresh. |
| `RefreshMetadata.ShallowMergeExample` | lib/shrine/plugins/refresh_metadata.rb:15 | The merge is shallow. A nested `dimensions` hash is replaced by the extracted one, so its old `height` entry is lost. |
| `RefreshMetadata.RefreshExample` | lib/shrine/plugins/refresh_metadata.rb:15 | Worked case: old metadata `size` and `checksum`, extracted `size` and `mime_type`. The result has the extracted size, the old checksum and the new MIME type, in that order, and the `id` entry is untouched. |
| `RefreshMetadata.MetadataMergeExample` | lib/shrine/plugins/refresh_metadata.rb:15 | The metadata half of the worked case: `metadata.merge(extracted)` gives size, checksum, MIME type, with the extracted size. |
| `Hashes.Merge` | lib/shrine/plugins/refresh_metadata.rb:15 | `Hash#merge`. The result's keys are the union of both hashes' keys. For keys in the argument, the argument's value wins. Every other key keeps the receiver's value. |
| `Hashes.Store` | lib/shrine/plugins/refresh_metadata.rb:15 | The per-entry step of `Hash#merge`. After the store, the key holds the new value and every other key is unchanged. An existing key keeps its position, and a new key is appended. |
| `Hashes.MergeKeyOrder` | lib/shrine/plugins/refresh_metadata.rb:15 | `Hash#merge` keeps the receiver's keys in order and then appends the argument's new keys in the argument's order. |
| `Hashes.MergeIdempotent` | lib/shrine/plugins/refresh_metadata.rb:15 | Merging the same hash twice gives the same hash, order included, as merging it once: `(m ∪ e) ∪ e = m ∪ e`. |
| `Hashes.MergeIsMapUnion` | lib/shrine/plugins/refresh_metadata.rb:15 | Seen as a finite map, `Hash#merge` is right-biased map union. |

## Left out

- `lib/shrine/plugins/module_include.rb`: `attachment_module`, `attacher_module` and `file_module` only hand a module to Ruby's `Module#include`. That is method-resolution machinery of the language, with no logic of its own to state.
- `register_plugin` (module_include.rb:28, refresh_metadata.rb:20): Shrine's plugin bootstrapping.
- `uploader.extract_metadata`: the real extraction is foreign code. It is the `Extractor` parameter, an arbitrary function that may raise.
- `UploadedFile#open` and storage I/O: `open` is Shrine host code and is not part of this model. It is modelled as: ask the `Opener` for a stream (which may raise), run the block with that stream as `@io`, then close it and reset `@io` to nil whether or not the block raised. Nothing is read from the stream here, and errors raised while closing are not modelled.
- The `metadata` accessor and the `uploader` lookup are host code. `Refresh` requires that `@data["metadata"]` exists and holds a hash (`HasMetadata`). The accessor's behaviour when the entry is missing is not modelled.
- Ruby values are reduced to nil, booleans, integers, strings, arrays and hashes. Floats and other objects are not modelled. A hash with a `nil` value is kept distinct from a missing key (`Get` returns `Some(Nil)`).
- Concurrency: refreshing the same file from two threads is outside the model. Each call is a pure function from the old file to the new one.
- The context is a type parameter `C` of `Refresh`, so it can be any value, such as Shrine's symbol-keyed option hashes. The model only shows that it reaches the extractor unchanged. The Ruby default `context = {}` (refresh_metadata.rb:7) is not modelled: callers pass the empty context explicitly.
