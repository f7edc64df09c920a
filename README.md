# Rack ETag and TempfileReaper, modelled in Dafny

This project models two middleware stages of Rack:

- **`Rack::ETag`** (`etag.dfy`, module `RackETag`). The downstream application answers with `(status, headers, body)`. If the status is 200 or 201, the body is array-like and no `etag` or `last-modified` header is present, the middleware streams the non-empty parts of the body into SHA-256. When at least one part was non-empty, it writes the weak validator `W/"<first 32 hex characters>"` into `etag`. It then fills in `cache-control` if the application left it out. It uses the `cache_control` directive when a digest was produced and the `no_cache_control` directive when none was. Either directive may be `nil`, and a `nil` directive writes nothing.
- **`Rack::TempfileReaper`** (`tempfile_reaper.dfy`, module `TempfileReaper`). This part is built only from what `test/spec_tempfile_reaper.rb` asserts. The request env holds an optional, ordered `rack.tempfiles` registry. The reaper creates it when it is missing. The application may append to it, then either returns or raises. On the error path every registered tempfile is closed and the error propagates unchanged, whatever its kind. On the return path, closing the response body closes every registered tempfile. The six `it` blocks of the test are client methods whose postconditions are the test's assertions.

`wrappers.dfy` holds the `Option` type used for Ruby's `nil`.

Modelling choices:
- Headers are a `map<string, string>` keyed by lower-case names. A header whose value would be `nil` is absent from the map, so Ruby's `unless headers[CACHE_CONTROL]` becomes "the key is absent".
- A body is either `Ary(parts)`, one that responds to `to_ary`, or `Stream(handle)`, one that does not; the handle plays the part of object identity.
- SHA-256 is the parameter `hash` of type `Sha256`. That type is a function from the streamed characters to 64 lower-case hex characters. Streaming `<<` appends, so the digest is the hash of the concatenated non-empty parts.
- The application's run against the env is the method `RunApp`. It appends to the registry it finds, and it raises NoMethodError when it appends to a missing one, as `nil << tempfile` does in Ruby.
- `ETag.Call` is a method proved equal to the function `ETag.Respond`. The properties are lemmas about `Respond`.
- `DigestBody` is the loop of `digest_body`, proved equal to the function `Digest`.

## Model

| member | source | states |
|---|---|---|
| `RackETag.EtagStatus` | lib/rack/etag.rb:50-52 | holds exactly for the statuses 200 and 201 |
| `RackETag.SkipCaching` | lib/rack/etag.rb:54-56 | fails exactly when neither `etag` nor `last-modified` is a header key |
| `RackETag.NonEmptyParts` | lib/rack/etag.rb:61-62 | the parts fed to the hash are the non-empty parts of the body: none of them is empty, and a string occurs among them exactly when it occurs in the body and is not empty |
| `RackETag.Digest` | lib/rack/etag.rb:58-66 | a digest, when there is one, is 32 lower-case hex characters: the first 32 of the hash of the non-empty parts streamed in order |
| `RackETag.DigestBody` | lib/rack/etag.rb:58-66 | the loop that lazily creates the accumulator on the first non-empty part and appends each non-empty part returns exactly `Digest` of the parts |
| `RackETag.NonEmptyPartsAppend` | lib/rack/etag.rb:61-62 | skipping empty parts over two halves of a body is skipping them over each half |
| `RackETag.ConcatNonEmptyParts` | lib/rack/etag.rb:61-62 | the characters fed to the hash, with empty parts skipped, are all the characters of the body |
| `RackETag.DigestIgnoresEmptyPart` | lib/rack/etag.rb:61-62 | inserting an empty part anywhere in a body leaves its digest unchanged |
| `RackETag.DigestOfNonEmptyParts` | lib/rack/etag.rb:61-62 | removing every empty part from a body leaves its digest unchanged |
| `RackETag.NoDigestIffAllPartsEmpty` | lib/rack/etag.rb:59-65 | there is no digest if and only if every part is empty, which includes a body with no parts |
| `RackETag.DigestDependsOnlyOnContent` | lib/rack/etag.rb:61-65 | two bodies with the same characters, however split into parts, have the same digest |
| `RackETag.ETag.constructor` | lib/rack/etag.rb:22-26 | the middleware keeps the two directives it is given |
| `RackETag.DefaultConfiguration` | lib/rack/etag.rb:20-22 | by default there is no directive without a digest, and `max-age=0, private, must-revalidate` with one |
| `RackETag.ETag.Respond` | lib/rack/etag.rb:28-46 | the response handed upstream keeps the downstream status and body, keeps every header key, and adds no key other than `etag` and `cache-control` |
| `RackETag.ETag.Call` | lib/rack/etag.rb:28-46 | the step-by-step `call`, mutating the headers, returns exactly `Respond` of the downstream response |
| `RackETag.ETag.OnlyETagAndCacheControlChange` | lib/rack/etag.rb:29-45 | status and body are returned unchanged, no header is removed, and every header other than `etag` and `cache-control` keeps its value |
| `RackETag.ETag.ETagOnlyForCacheableStatus` | lib/rack/etag.rb:50-52 | for any status other than 200 or 201 the `etag` entry is left as the application set it |
| `RackETag.ETag.ValidatorHeadersSkipDigest` | lib/rack/etag.rb:54-56 | with `etag` or `last-modified` present, no digest is taken, the body is returned as it was and `etag` is untouched |
| `RackETag.ETag.StreamBodyPassesThrough` | lib/rack/etag.rb:31-32 | a body that does not respond to `to_ary` is returned as the same stream, with no digest and `etag` untouched |
| `RackETag.ETag.AllEmptyPartsGetNoETag` | lib/rack/etag.rb:33-34 | an eligible body whose parts are all empty gets no digest and no `etag` |
| `RackETag.ETag.ETagValue` | lib/rack/etag.rb:31-34 | `etag` is added if and only if the response is eligible and some part is non-empty; its value is `W/"` + the first 32 characters of the hex digest of the body + `"`, 36 characters long |
| `RackETag.ETag.CacheControlNegotiation` | lib/rack/etag.rb:37-43 | an existing `cache-control` is never overwritten; otherwise it is present exactly when the chosen directive (`cacheControl` with a digest, `noCacheControl` without) is not `nil`, and then equals it |
| `RackETag.ETag.ChunkingDoesNotChangeHeaders` | lib/rack/etag.rb:61-62 | two array bodies with the same characters, split differently, get the same headers |
| `RackETag.ETag.SecondPassKeepsETag` | lib/rack/etag.rb:54-56 | running the middleware again on its own output keeps `etag` as written, and the second pass takes no digest when `etag` is present |
| `TempfileReaper.Tempfile.constructor` | test/spec_tempfile_reaper.rb:15-17 | a new tempfile is not closed |
| `TempfileReaper.Tempfile.Close` | test/spec_tempfile_reaper.rb:19-21 | `close!` sets `closed` and changes no other object |
| `TempfileReaper.CloseAll` | test/spec_tempfile_reaper.rb:43-45 | every tempfile of the list is closed, and nothing outside the list changes |
| `TempfileReaper.Registered` | test/spec_tempfile_reaper.rb:41 | the tempfiles of the `rack.tempfiles` slot, and none when the slot is missing |
| `TempfileReaper.RunApp` | test/spec_tempfile_reaper.rb:68-71 | an application that appends to a missing registry raises NoMethodError and leaves the env as it was; otherwise its tempfiles are appended, in order, to the registry it finds and its own outcome is returned |
| `TempfileReaper.ReapedBody.Close` | test/spec_tempfile_reaper.rb:57-64 | closing the body closes every tempfile in the env's registry |
| `TempfileReaper.Call` | test/spec_tempfile_reaper.rb:32-86 | the registry exists afterwards and is the old one (or an empty one) with the application's tempfiles appended, which, since an append to a missing registry raises NoMethodError, holds only because the registry is created before the application runs; a raised error of either kind comes back unchanged with every registered tempfile closed; a response comes back with its status and headers, a fresh body tied to the env, and no tempfile closed yet |
| `TempfileReaper.WithoutRegistry` | test/spec_tempfile_reaper.rb:32-37 | with no registry, the call returns status 200 and closing the body succeeds |
| `TempfileReaper.RaisesStandardError` | test/spec_tempfile_reaper.rb:39-46 | a RuntimeError `foo` propagates as it was raised and both pre-registered tempfiles are closed |
| `TempfileReaper.RaisesNonStandardError` | test/spec_tempfile_reaper.rb:48-55 | a LoadError, which is not a StandardError, propagates as a non-StandardError and both pre-registered tempfiles are closed |
| `TempfileReaper.BodyCloseClosesRegistry` | test/spec_tempfile_reaper.rb:57-64 | after a normal return, closing the body closes both registered tempfiles |
| `TempfileReaper.AppendWithoutRegistryFails` | test/spec_tempfile_reaper.rb:66-71 | without the reaper, the application of this test raises NoMethodError on an env with no registry |
| `TempfileReaper.CreatesMissingRegistry` | test/spec_tempfile_reaper.rb:66-74 | with no registry, the application can still append a tempfile, and closing the body closes it |
| `TempfileReaper.AppendsToExistingRegistry` | test/spec_tempfile_reaper.rb:76-86 | an existing registry is appended to, not replaced: the pre-registered and the appended tempfile are both closed on body close |

## Left out

- SHA-256 itself (`Digest::SHA256`) is a foreign library. It is the parameter `hash`, constrained only to return 64 lower-case hex characters.
- The value of `Rack::ETAG` and `Rack::CACHE_CONTROL` is defined in `constants.rb`, which is not part of this model. They are fixed to `"etag"` and `"cache-control"`.
- Case-insensitive header lookup (`Rack::Headers`) is not modelled. Keys are taken to be lower-case already.
- A header whose value is `nil` cannot be represented. With such a header, `headers.key?` and `headers[...]` would disagree, and the model does not cover that case.
- Ruby duck typing is reduced to the `Ary`/`Stream` tag of the body. Object identity of an array-like body after `to_ary` is not modelled: `to_ary` on a body that is not an Array may return a new object, while the model keeps only the parts.
- The downstream application call of `ETag#call` and its env are replaced by the downstream response, given as a parameter.
- `lib/rack/tempfile_reaper.rb` is not part of this model. The reaper is built only from the test's assertions. Disposal order, idempotence of a second close and tolerance of a failing `close!` are not claimed. Nor is what the reaper does with the application body's own `close`: the test bodies are Arrays, which have none.
- TempfileReaper.Call: on the return path, the model does not close any tempfile before the body is closed. The test does not assert this either way.
- `Rack::Lint`, `Rack::MockRequest.env_for` and `separate_testing` are test-harness plumbing and are left out.
- Concurrency is left out. A guard making disposal happen exactly once when both the error path and a body close run is left out too: neither `etag.rb` nor the test shows such a guard, so the model does not claim one.
- Bodies are strings of characters, not byte strings. A binary body that is not valid UTF-8 cannot be represented. Nothing proved depends on this: `empty?`, concatenation and `byteslice` of an ASCII hex digest act the same on characters.
