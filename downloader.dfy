/** `Manager#download_file` of pim-iso: a GET that follows HTTP redirects up to
    a budget and writes the body, chunk by chunk, to the destination file.
    The network is a function from URL to the response it gives. */
module Downloader {
  import opened Wrappers

  newtype byte = x: int | 0 <= x < 256
  type Bytes = seq<byte>

  /** The three kinds of response `download_file` tells apart. */
  datatype Response =
    | Redirect(location: Option<string>)  // a 3xx; the `Location` header may be absent
    | Success(chunks: seq<Bytes>)          // a 2xx; the body as `read_body` yields it
    | Failure(code: int)                   // anything else

  datatype Outcome =
    | Fetched(data: Bytes)
    | TooManyRedirects   // `raise 'Too many redirects'`
    | BadLocation        // a redirect without a location: `URI.parse(nil)` raises
    | HttpError(code: int)

  function Concat(chunks: seq<Bytes>): Bytes
  {
    if chunks == [] then [] else Concat(chunks[..|chunks| - 1]) + chunks[|chunks| - 1]
  }

  function TotalSize(chunks: seq<Bytes>): nat
  {
    if chunks == [] then 0 else TotalSize(chunks[..|chunks| - 1]) + |chunks[|chunks| - 1]|
  }

  /** The bytes on disk are as many as the progress counter adds up. */
  lemma {:induction false} ConcatSize(chunks: seq<Bytes>)
    ensures |Concat(chunks)| == TotalSize(chunks)
    decreases |chunks|
  {
    if chunks != [] { ConcatSize(chunks[..|chunks| - 1]); }
  }

  /** What `download_file(url, destination, budget)` ends in. */
  function Follow(net: string -> Response, url: string, budget: nat): Outcome
    decreases budget
  {
    if budget == 0 then TooManyRedirects
    else match net(url)
      case Redirect(Some(next)) => Follow(net, next, budget - 1)
      case Redirect(None) => if budget - 1 == 0 then TooManyRedirects else BadLocation
      case Success(chunks) => Fetched(Concat(chunks))
      case Failure(code) => HttpError(code)
  }

  /** The recursion of `download_file`; on success the destination holds the
      body, otherwise the files are as before. */
  method DownloadFile(net: string -> Response, url: string, destination: string,
                      files: map<string, Bytes>, redirectLimit: nat)
    returns (outcome: Outcome, received: nat, files': map<string, Bytes>)
    ensures outcome == Follow(net, url, redirectLimit)
    ensures files' == if outcome.Fetched? then files[destination := outcome.data] else files
    ensures outcome.Fetched? ==> received == |outcome.data|
    decreases redirectLimit
  {
    if redirectLimit == 0 {
      return TooManyRedirects, 0, files;
    }
    var response := net(url);
    match response {
      case Redirect(location) =>
        if location.None? {
          outcome := if redirectLimit - 1 == 0 then TooManyRedirects else BadLocation;
          return outcome, 0, files;
        }
        outcome, received, files' := DownloadFile(net, location.value, destination, files, redirectLimit - 1);
      case Success(chunks) =>
        var file: Bytes := [];
        var downloaded := 0;
        var i := 0;
        while i < |chunks|
          invariant 0 <= i <= |chunks|
          invariant file == Concat(chunks[..i])
          invariant downloaded == TotalSize(chunks[..i])
        {
          assert chunks[..i + 1][..i] == chunks[..i];
          file := file + chunks[i];
          downloaded := downloaded + |chunks[i]|;
          i := i + 1;
        }
        assert chunks[..i] == chunks;
        ConcatSize(chunks);
        outcome, received, files' := Fetched(file), downloaded, files[destination := file];
      case Failure(code) =>
        return HttpError(code), 0, files;
    }
  }

  /** `urls` is a chain of redirects: each one answers with the next. */
  predicate RedirectChain(net: string -> Response, urls: seq<string>)
  {
    urls != [] && forall i :: 0 <= i < |urls| - 1 ==> net(urls[i]) == Redirect(Some(urls[i + 1]))
  }

  /** Following a chain shorter than the budget leads to its last URL, with
      the budget reduced by the number of hops. */
  lemma {:induction false} FollowChain(net: string -> Response, urls: seq<string>, budget: nat)
    requires RedirectChain(net, urls) && |urls| - 1 < budget
    ensures Follow(net, urls[0], budget) == Follow(net, urls[|urls| - 1], budget - (|urls| - 1))
    decreases |urls|
  {
    if |urls| > 1 {
      assert RedirectChain(net, urls[1..]);
      FollowChain(net, urls[1..], budget - 1);
    }
  }

  /** A chain of at least `budget` redirects ends in "Too many redirects",
      whatever the last URL answers. */
  lemma {:induction false} LongChainFails(net: string -> Response, urls: seq<string>, budget: nat)
    requires RedirectChain(net, urls) && |urls| - 1 >= budget
    ensures Follow(net, urls[0], budget) == TooManyRedirects
    decreases budget
  {
    if budget > 0 {
      assert RedirectChain(net, urls[1..]);
      LongChainFails(net, urls[1..], budget - 1);
    }
  }

  /** Every successful download comes from a chain of fewer redirects than
      the budget, ending at a URL that answers with the body. With the default
      budget of 5 at most four redirects are followed. */
  lemma {:induction false} FetchedHasShortChain(net: string -> Response, url: string, budget: nat)
    requires Follow(net, url, budget).Fetched?
    ensures exists urls :: RedirectChain(net, urls) && urls[0] == url && |urls| <= budget
              && net(urls[|urls| - 1]).Success?
              && Follow(net, url, budget).data == Concat(net(urls[|urls| - 1]).chunks)
    decreases budget
  {
    match net(url)
    case Success(_) =>
      assert RedirectChain(net, [url]);
    case Redirect(Some(next)) =>
      FetchedHasShortChain(net, next, budget - 1);
      var rest :| RedirectChain(net, rest) && rest[0] == next && |rest| <= budget - 1
                  && net(rest[|rest| - 1]).Success?
                  && Follow(net, next, budget - 1).data == Concat(net(rest[|rest| - 1]).chunks);
      var urls := [url] + rest;
      assert RedirectChain(net, urls);
      assert urls[|urls| - 1] == rest[|rest| - 1];
  }
}
