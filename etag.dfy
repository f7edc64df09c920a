/**
 * The Rack::ETag middleware (lib/rack/etag.rb).
 *
 * After the downstream application answers with (status, headers, body),
 * the middleware may digest an array-like body, set a weak `etag`
 * validator and fill in `cache-control` when the application left it out.
 *
 * Headers are a map keyed by lower-case header names; a header whose value
 * would be Ruby's `nil` is simply absent from the map. Bodies are strings
 * of characters. SHA-256 is a
 * foreign library: it is a parameter of type Sha256, a function known only
 * to return 64 lower-case hexadecimal characters.
 */
module RackETag {
  import opened Wrappers

  /** Header names (Rack 3 spells them in lower case). */
  const EtagHeader: string := "etag"
  const CacheControlHeader: string := "cache-control"
  const LastModifiedHeader: string := "last-modified"

  /** The directive used when a digest is present, unless configured otherwise. */
  const DefaultCacheControl: string := "max-age=0, private, must-revalidate"

  predicate IsLowerHexChar(c: char) {
    ('0' <= c <= '9') || ('a' <= c <= 'f')
  }

  predicate IsLowerHex(s: string) {
    forall i :: 0 <= i < |s| ==> IsLowerHexChar(s[i])
  }

  /** What `Digest::SHA256#hexdigest` returns: 64 lower-case hex characters. */
  predicate IsHexDigest(s: string) {
    |s| == 64 && IsLowerHex(s)
  }

  const ZeroDigest: string := seq(64, _ => '0')

  type HexDigest = s: string | IsHexDigest(s) witness ZeroDigest

  /** SHA-256 of the characters fed into it, as a hex string; its internals are not modelled. */
  type Sha256 = string -> HexDigest

  /** A response body: array-like (responds to `to_ary`) or an opaque stream,
      such as a sendfile body, identified only by a handle. */
  datatype Body = Ary(parts: seq<string>) | Stream(handle: nat)

  datatype Response = Response(status: int, headers: map<string, string>, body: Body)

  /** `etag_status?`: only 200 and 201 are digested. */
  function EtagStatus(status: int): (b: bool)
    ensures b <==> status in {200, 201}
  {
    status == 200 || status == 201
  }

  /** `skip_caching?`: the application already sent a validator. */
  function SkipCaching(headers: map<string, string>): (b: bool)
    ensures !b <==> headers.Keys !! {EtagHeader, LastModifiedHeader}
  {
    EtagHeader in headers || LastModifiedHeader in headers
  }

  /** The parts that are fed into the hash: the non-empty ones, in order. */
  function NonEmptyParts(parts: seq<string>): (r: seq<string>)
    ensures |r| <= |parts|
    ensures forall i :: 0 <= i < |r| ==> r[i] != ""
    ensures forall x :: x in r <==> x in parts && x != ""
  {
    if parts == [] then []
    else (if parts[0] == "" then [] else [parts[0]]) + NonEmptyParts(parts[1..])
  }

  /** The characters of a body, part after part. */
  function Concat(parts: seq<string>): (r: string) {
    if parts == [] then "" else parts[0] + Concat(parts[1..])
  }

  /** `hexdigest.byteslice(0, 32)`: the first 32 characters, or all of a shorter string. */
  function Truncate32(hex: string): (r: string) {
    if |hex| <= 32 then hex else hex[..32]
  }

  /** What `digest_body` returns: no digest when no part is non-empty,
      otherwise the truncated hex digest of the non-empty parts streamed in order. */
  function Digest(hash: Sha256, parts: seq<string>): (r: Option<string>)
    ensures r.Some? ==> |r.value| == 32 && IsLowerHex(r.value)
    ensures r.Some? ==> r.value == hash(Concat(NonEmptyParts(parts)))[..32]
  {
    var fed := NonEmptyParts(parts);
    if fed == [] then None else Some(Truncate32(hash(Concat(fed))))
  }

  /** `%(W/"#{digest}")`: the weak validator written for a digest. */
  function WeakValidator(digest: string): (r: string) {
    "W/\"" + digest + "\""
  }

  /** The header entry for `key` is the same in both maps (present with the
      same value, or absent from both). */
  predicate EntryUnchanged(before: map<string, string>, after: map<string, string>, key: string) {
    (key in before <==> key in after) && (key in before ==> before[key] == after[key])
  }

  /**
   * `digest_body`: walks the parts; the hash accumulator is created on the
   * first non-empty part, and every non-empty part is appended to it.
   * `fed` holds what has been streamed into the accumulator so far.
   */
  method DigestBody(hash: Sha256, parts: seq<string>) returns (digest: Option<string>)
    ensures digest == Digest(hash, parts)
  {
    var fed: Option<string> := None;
    var i := 0;
    while i < |parts|
      invariant 0 <= i <= |parts|
      invariant fed.None? <==> NonEmptyParts(parts[..i]) == []
      invariant fed.Some? ==> fed.value == Concat(NonEmptyParts(parts[..i]))
    {
      var part := parts[i];
      NonEmptyPartsAppend(parts[..i], [part]);
      ConcatAppend(NonEmptyParts(parts[..i]), NonEmptyParts([part]));
      assert parts[..i + 1] == parts[..i] + [part];
      if part != "" {
        fed := match fed
          case None => Some(part)
          case Some(data) => Some(data + part);
      }
      i := i + 1;
    }
    assert parts[..i] == parts;
    digest := match fed
      case None => None
      case Some(data) => Some(Truncate32(hash(data)));
  }

  lemma {:induction false} NonEmptyPartsAppend(a: seq<string>, b: seq<string>)
    ensures NonEmptyParts(a + b) == NonEmptyParts(a) + NonEmptyParts(b)
  {
    if a == [] {
      assert a + b == b;
    } else {
      assert (a + b)[1..] == a[1..] + b;
      NonEmptyPartsAppend(a[1..], b);
    }
  }

  lemma {:induction false} ConcatAppend(a: seq<string>, b: seq<string>)
    ensures Concat(a + b) == Concat(a) + Concat(b)
  {
    if a == [] {
      assert a + b == b;
    } else {
      assert (a + b)[1..] == a[1..] + b;
      ConcatAppend(a[1..], b);
    }
  }

  /** Streaming only non-empty parts streams the same characters as the whole body. */
  lemma {:induction false} ConcatNonEmptyParts(parts: seq<string>)
    ensures Concat(NonEmptyParts(parts)) == Concat(parts)
  {
    if parts != [] {
      ConcatNonEmptyParts(parts[1..]);
      ConcatAppend(if parts[0] == "" then [] else [parts[0]], NonEmptyParts(parts[1..]));
    }
  }

  lemma {:induction false} NonEmptyPartsEmptyIff(parts: seq<string>)
    ensures NonEmptyParts(parts) == [] <==> forall i :: 0 <= i < |parts| ==> parts[i] == ""
  {
    if parts != [] {
      NonEmptyPartsEmptyIff(parts[1..]);
      assert forall i :: 1 <= i < |parts| ==> parts[i] == parts[1..][i - 1];
    }
  }

  lemma {:induction false} NonEmptyPartsEmptyIffConcatEmpty(parts: seq<string>)
    ensures NonEmptyParts(parts) == [] <==> Concat(parts) == ""
  {
    if parts != [] {
      NonEmptyPartsEmptyIffConcatEmpty(parts[1..]);
    }
  }

  lemma {:induction false} NonEmptyPartsIdempotent(parts: seq<string>)
    ensures NonEmptyParts(NonEmptyParts(parts)) == NonEmptyParts(parts)
  {
    if parts != [] {
      var head := if parts[0] == "" then [] else [parts[0]];
      NonEmptyPartsAppend(head, NonEmptyParts(parts[1..]));
      NonEmptyPartsIdempotent(parts[1..]);
      if parts[0] != "" {
        assert NonEmptyParts(head) == head by {
          assert head[1..] == [];
        }
      }
    }
  }

  /** The digest ignores an empty part wherever it stands in the body. */
  lemma DigestIgnoresEmptyPart(hash: Sha256, before: seq<string>, after: seq<string>)
    ensures Digest(hash, before + [""] + after) == Digest(hash, before + after)
  {
    assert NonEmptyParts([""]) == [] by {
      assert [""][1..] == [];
    }
    calc {
      NonEmptyParts(before + [""] + after);
      { NonEmptyPartsAppend(before + [""], after); }
      NonEmptyParts(before + [""]) + NonEmptyParts(after);
      { NonEmptyPartsAppend(before, [""]); }
      NonEmptyParts(before) + NonEmptyParts(after);
      { NonEmptyPartsAppend(before, after); }
      NonEmptyParts(before + after);
    }
  }

  /** Dropping every empty part from a body does not change its digest. */
  lemma DigestOfNonEmptyParts(hash: Sha256, parts: seq<string>)
    ensures Digest(hash, NonEmptyParts(parts)) == Digest(hash, parts)
  {
    NonEmptyPartsIdempotent(parts);
  }

  /** There is no digest exactly when every part is empty (including no parts at all). */
  lemma NoDigestIffAllPartsEmpty(hash: Sha256, parts: seq<string>)
    ensures Digest(hash, parts).None? <==> forall i :: 0 <= i < |parts| ==> parts[i] == ""
  {
    NonEmptyPartsEmptyIff(parts);
  }

  /** Because the hash is fed in a stream, the digest depends only on the characters
      of the body, not on how they are split into parts. */
  lemma DigestDependsOnlyOnContent(hash: Sha256, p: seq<string>, q: seq<string>)
    requires Concat(p) == Concat(q)
    ensures Digest(hash, p) == Digest(hash, q)
  {
    NonEmptyPartsEmptyIffConcatEmpty(p);
    NonEmptyPartsEmptyIffConcatEmpty(q);
    ConcatNonEmptyParts(p);
    ConcatNonEmptyParts(q);
  }

  /** The middleware, configured with the directive used when no digest was
      produced and the one used when a digest was produced. */
  class ETag {
    const noCacheControl: Option<string>
    const cacheControl: Option<string>

    /** `initialize(app, no_cache_control = nil, cache_control = DEFAULT_CACHE_CONTROL)`. */
    constructor (noCacheControl: Option<string> := None,
                 cacheControl: Option<string> := Some(DefaultCacheControl))
      ensures this.noCacheControl == noCacheControl && this.cacheControl == cacheControl
    {
      this.noCacheControl := noCacheControl;
      this.cacheControl := cacheControl;
    }

    /** The eligibility condition of `call`: cacheable status, array-like body, no validator yet. */
    predicate Eligible(d: Response) {
      EtagStatus(d.status) && d.body.Ary? && !SkipCaching(d.headers)
    }

    /** The digest the middleware computes for a downstream response, if any. */
    function DigestOf(hash: Sha256, d: Response): (r: Option<string>) {
      if Eligible(d) then Digest(hash, d.body.parts) else None
    }

    /** The directive Cache-Control is filled with, chosen by whether a digest exists. */
    function Directive(digest: Option<string>): (r: Option<string>) {
      if digest.Some? then cacheControl else noCacheControl
    }

    /** The response the middleware hands upstream for the downstream response `d`. */
    function Respond(hash: Sha256, d: Response): (r: Response)
      ensures r.status == d.status && r.body == d.body
      ensures d.headers.Keys <= r.headers.Keys <= d.headers.Keys + {EtagHeader, CacheControlHeader}
    {
      var digest := DigestOf(hash, d);
      var tagged := if digest.Some? then d.headers[EtagHeader := WeakValidator(digest.value)] else d.headers;
      var directive := Directive(digest);
      var headers :=
        if CacheControlHeader !in tagged && directive.Some?
        then tagged[CacheControlHeader := directive.value]
        else tagged;
      Response(d.status, headers, d.body)
    }

    /** `call`: the downstream response `downstream` stands for `@app.call(env)`. */
    method Call(hash: Sha256, downstream: Response) returns (r: Response)
      ensures r == Respond(hash, downstream)
    {
      var status, headers, body := downstream.status, downstream.headers, downstream.body;
      var digest: Option<string> := None;
      if EtagStatus(status) && body.Ary? && !SkipCaching(headers) {
        // `body.to_ary` of an array-like body yields the same parts
        digest := DigestBody(hash, body.parts);
        if digest.Some? {
          headers := headers[EtagHeader := WeakValidator(digest.value)];
        }
      }
      if CacheControlHeader !in headers {
        if digest.Some? {
          if cacheControl.Some? {
            headers := headers[CacheControlHeader := cacheControl.value];
          }
        } else {
          if noCacheControl.Some? {
            headers := headers[CacheControlHeader := noCacheControl.value];
          }
        }
      }
      r := Response(status, headers, body);
    }

    /** The status and body are handed back unchanged, and no header other than
        `etag` and `cache-control` is added, removed or changed. */
    lemma OnlyETagAndCacheControlChange(hash: Sha256, d: Response)
      ensures Respond(hash, d).status == d.status
      ensures Respond(hash, d).body == d.body
      ensures d.headers.Keys <= Respond(hash, d).headers.Keys
      ensures forall k :: k != EtagHeader && k != CacheControlHeader ==>
                EntryUnchanged(d.headers, Respond(hash, d).headers, k)
    {
    }

    /** An `etag` is only ever written for status 200 or 201; for any other
        status the entry stays as the application set it. */
    lemma ETagOnlyForCacheableStatus(hash: Sha256, d: Response)
      requires !EtagStatus(d.status)
      ensures EntryUnchanged(d.headers, Respond(hash, d).headers, EtagHeader)
    {
    }

    /** A response that already carries `etag` or `last-modified` keeps its
        body and its `etag` entry. */
    lemma ValidatorHeadersSkipDigest(hash: Sha256, d: Response)
      requires SkipCaching(d.headers)
      ensures Respond(hash, d).body == d.body
      ensures EntryUnchanged(d.headers, Respond(hash, d).headers, EtagHeader)
      ensures DigestOf(hash, d).None?
    {
    }

    /** A body that does not respond to `to_ary` is handed back as the same
        stream and gets no `etag`. */
    lemma StreamBodyPassesThrough(hash: Sha256, d: Response)
      requires d.body.Stream?
      ensures Respond(hash, d).body == d.body
      ensures EntryUnchanged(d.headers, Respond(hash, d).headers, EtagHeader)
      ensures DigestOf(hash, d).None?
    {
    }

    /** An eligible body whose parts are all empty (or which has no parts)
        gets no digest and no `etag`. */
    lemma AllEmptyPartsGetNoETag(hash: Sha256, d: Response)
      requires Eligible(d)
      requires forall i :: 0 <= i < |d.body.parts| ==> d.body.parts[i] == ""
      ensures DigestOf(hash, d).None?
      ensures EtagHeader !in Respond(hash, d).headers
    {
      NoDigestIffAllPartsEmpty(hash, d.body.parts);
    }

    /** `etag` is written exactly when the response is eligible and some part is
        non-empty; its value is `W/"` + the first 32 hex characters of the
        digest + `"`, 36 characters in all. */
    lemma ETagValue(hash: Sha256, d: Response)
      ensures (EtagHeader in Respond(hash, d).headers && EtagHeader !in d.headers) <==>
              (Eligible(d) && exists i :: 0 <= i < |d.body.parts| && d.body.parts[i] != "")
      ensures Eligible(d) && EtagHeader in Respond(hash, d).headers ==>
                var v := Respond(hash, d).headers[EtagHeader];
                && |v| == 36
                && v == "W/\"" + hash(Concat(d.body.parts))[..32] + "\""
    {
      if Eligible(d) {
        NoDigestIffAllPartsEmpty(hash, d.body.parts);
        ConcatNonEmptyParts(d.body.parts);
      }
    }

    /** A `cache-control` header the application set is never overwritten.
        Otherwise it becomes `cacheControl` when a digest was produced and
        `noCacheControl` when none was, and stays absent when that directive is `None`. */
    lemma CacheControlNegotiation(hash: Sha256, d: Response)
      ensures CacheControlHeader in d.headers ==>
                EntryUnchanged(d.headers, Respond(hash, d).headers, CacheControlHeader)
      ensures CacheControlHeader !in d.headers ==>
                var directive := if DigestOf(hash, d).Some? then cacheControl else noCacheControl;
                && (CacheControlHeader in Respond(hash, d).headers <==> directive.Some?)
                && (directive.Some? ==> Respond(hash, d).headers[CacheControlHeader] == directive.value)
    {
    }

    /** Splitting the same body characters into parts differently does not change
        the headers the middleware produces. */
    lemma ChunkingDoesNotChangeHeaders(hash: Sha256, status: int, headers: map<string, string>,
                                       p: seq<string>, q: seq<string>)
      requires Concat(p) == Concat(q)
      ensures Respond(hash, Response(status, headers, Ary(p))).headers ==
              Respond(hash, Response(status, headers, Ary(q))).headers
    {
      DigestDependsOnlyOnContent(hash, p, q);
    }

    /** Running the middleware on its own output keeps the `etag` it wrote:
        the second pass sees the validator and skips digesting. */
    lemma SecondPassKeepsETag(hash: Sha256, d: Response)
      ensures EntryUnchanged(Respond(hash, d).headers,
                             Respond(hash, Respond(hash, d)).headers, EtagHeader)
      ensures EtagHeader in Respond(hash, d).headers ==>
                DigestOf(hash, Respond(hash, d)).None?
    {
    }
  }

  /** The defaults of `initialize`: nothing without a digest, the default directive with one. */
  method DefaultConfiguration() returns (etag: ETag)
    ensures etag.noCacheControl == None
    ensures etag.cacheControl == Some("max-age=0, private, must-revalidate")
  {
    etag := new ETag();
  }
}
