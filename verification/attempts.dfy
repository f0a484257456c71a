/** The download loops: `process_single_image` tries the found URLs in order,
    `download_with_fallback` tries fixed stock-photo URLs whose key occurs in
    the file name. Both stop at the first success, and both download to the
    same target, so a file left by one attempt is seen by the next. */
module Attempts {
  import opened Wrappers
  import Seqs
  import Text
  import ImageSearch
  import Downloader

  /** The server: what `requests.get` does for each URL. */
  type Server = string -> Downloader.Fetch

  /** One download attempt of a URL on the target, as a function of the
      target's state. */
  type Attempter = (Option<nat>, string) -> Downloader.Step

  /** `download_image_from_url` against `server` and `disk`. */
  function Downloads(cleanup: Downloader.Cleanup, disk: Downloader.Disk, server: Server): Attempter {
    (file, url) => Downloader.DownloadImage(cleanup, file, disk, server(url))
  }

  /** One attempt: the URL tried and what it returned. */
  datatype Attempt = Attempt(url: string, outcome: Downloader.Outcome)

  /** The overall result, the attempts in order, and the target afterwards. */
  datatype Tries = Tries(success: bool, attempts: seq<Attempt>, file: Option<nat>)

  /** The attempts of `first` followed by those of `second`, which started
      from the target `first` left. */
  function Then(first: Tries, second: Tries): Tries {
    Tries(second.success, first.attempts + second.attempts, second.file)
  }

  /** The target after attempting each of `urls` in turn, whatever the
      outcomes: the state each attempt hands to the next. */
  function FileAfter(step: Attempter, file: Option<nat>, urls: seq<string>): Option<nat>
    decreases |urls|
  {
    if urls == [] then file else FileAfter(step, step(file, urls[0]).file, urls[1..])
  }

  /** Running a non-empty prefix of `urls` is running the first URL, then
      the rest of the prefix from where it left the target. */
  lemma FileAfterShift(step: Attempter, file: Option<nat>, urls: seq<string>)
    requires urls != []
    ensures forall i :: 1 <= i <= |urls| ==>
      FileAfter(step, file, urls[..i]) == FileAfter(step, step(file, urls[0]).file, urls[1..][..i - 1])
  {
    forall i | 1 <= i <= |urls|
      ensures FileAfter(step, file, urls[..i]) == FileAfter(step, step(file, urls[0]).file, urls[1..][..i - 1])
    {
      assert urls[..i][0] == urls[0];
      assert urls[..i][1..] == urls[1..][..i - 1];
    }
  }

  /** Try `urls` in order and stop at the first success. */
  function TryInOrder(step: Attempter, file: Option<nat>, urls: seq<string>): (t: Tries)
    ensures InOrder(t, urls)
    decreases |urls|
  {
    if urls == [] then Tries(false, [], file)
    else
      var st := step(file, urls[0]);
      var first := Attempt(urls[0], st.outcome);
      if st.outcome.success then Tries(true, [first], st.file)
      else
        var rest := TryInOrder(step, st.file, urls[1..]);
        FailedThen(first, rest, urls);
        Tries(rest.success, [first] + rest.attempts, rest.file)
  }

  /** A failed attempt on `urls[0]` followed by an in-order run over the
      rest of `urls` is an in-order run over `urls`. */
  lemma FailedThen(first: Attempt, rest: Tries, urls: seq<string>)
    requires urls != [] && first.url == urls[0] && !first.outcome.success
    requires InOrder(rest, urls[1..])
    ensures InOrder(Tries(rest.success, [first] + rest.attempts, rest.file), urls)
  {
    var t := Tries(rest.success, [first] + rest.attempts, rest.file);
    forall i | 0 <= i < |t.attempts|
      ensures t.attempts[i].url == urls[i]
    {
      if i > 0 {
        assert t.attempts[i] == rest.attempts[i - 1];
      }
    }
  }

  /** Attempt `i` of `t` is `step` on `urls[i]` against the target the
      earlier attempts left, and `t` ends with the target as the attempts
      made leave it. */
  predicate FollowsStep(step: Attempter, file: Option<nat>, urls: seq<string>, t: Tries)
  {
    && |t.attempts| <= |urls|
    && (forall i :: 0 <= i < |t.attempts| ==>
          t.attempts[i] == Attempt(urls[i], step(FileAfter(step, file, urls[..i]), urls[i]).outcome))
    && t.file == FileAfter(step, file, urls[..|t.attempts|])
  }

  /** Attempt `i` of `TryInOrder` is `step` on `urls[i]` against the target
      the earlier attempts left, and the target ends as the attempts made
      leave it. */
  lemma {:induction false} TryInOrderFollowsStep(step: Attempter, file: Option<nat>, urls: seq<string>)
    ensures var t := TryInOrder(step, file, urls);
      (forall i :: 0 <= i < |t.attempts| ==>
         t.attempts[i] == Attempt(urls[i], step(FileAfter(step, file, urls[..i]), urls[i]).outcome))
      && t.file == FileAfter(step, file, urls[..|t.attempts|])
    decreases |urls|
  {
    if urls != [] {
      var st := step(file, urls[0]);
      var first := Attempt(urls[0], st.outcome);
      if st.outcome.success {
        FollowsCons(step, file, urls, first, Tries(true, [], st.file), TryInOrder(step, file, urls));
      } else {
        TryInOrderFollowsStep(step, st.file, urls[1..]);
        var rest := TryInOrder(step, st.file, urls[1..]);
        FollowsCons(step, file, urls, first, rest, TryInOrder(step, file, urls));
      }
    }
  }

  /** One attempt on `urls[0]` and then a run that follows `step` over the
      rest of `urls` is a run that follows `step` over `urls`. */
  lemma FollowsCons(step: Attempter, file: Option<nat>, urls: seq<string>, first: Attempt, rest: Tries, t: Tries)
    requires urls != [] && first == Attempt(urls[0], step(file, urls[0]).outcome)
    requires FollowsStep(step, step(file, urls[0]).file, urls[1..], rest)
    requires |rest.attempts| < |urls|
    requires t.attempts == [first] + rest.attempts && t.file == rest.file
    ensures FollowsStep(step, file, urls, t)
  {
    FileAfterShift(step, file, urls);
    assert urls[..0] == [];
    assert urls[1..][..0] == [];
    forall i | 1 <= i < |t.attempts|
      ensures t.attempts[i] == Attempt(urls[i], step(FileAfter(step, file, urls[..i]), urls[i]).outcome)
    {
      assert t.attempts[i] == rest.attempts[i - 1];
      assert urls[1..][i - 1] == urls[i];
    }
  }

  /** One step of `TryInOrder`: a first success ends the loop, a first
      failure is followed by the loop over the remaining URLs. */
  lemma TryInOrderStep(step: Attempter, file: Option<nat>, urls: seq<string>)
    requires urls != []
    ensures var st := step(file, urls[0]);
      var single := Tries(st.outcome.success, [Attempt(urls[0], st.outcome)], st.file);
      TryInOrder(step, file, urls)
      == if st.outcome.success then single else Then(single, TryInOrder(step, st.file, urls[1..]))
  {
  }

  lemma ThenAssociative(x: Tries, y: Tries, z: Tries)
    ensures Then(Then(x, y), z) == Then(x, Then(y, z))
  {
    assert (x.attempts + y.attempts) + z.attempts == x.attempts + (y.attempts + z.attempts);
  }

  /** Trying `a + b` is trying `a` and, if that failed, `b` from where `a`
      left the target. */
  lemma {:induction false} TryInOrderAppend(step: Attempter, file: Option<nat>, a: seq<string>, b: seq<string>)
    ensures var ta := TryInOrder(step, file, a);
      TryInOrder(step, file, a + b)
      == if ta.success then ta else Then(ta, TryInOrder(step, ta.file, b))
    decreases |a|
  {
    if a == [] {
      assert a + b == b;
    } else {
      var ab := a + b;
      assert ab[0] == a[0] && ab[1..] == a[1..] + b;
      TryInOrderStep(step, file, a);
      TryInOrderStep(step, file, ab);
      var st := step(file, a[0]);
      if !st.outcome.success {
        var single := Tries(false, [Attempt(a[0], st.outcome)], st.file);
        var ta' := TryInOrder(step, st.file, a[1..]);
        TryInOrderAppend(step, st.file, a[1..], b);
        if !ta'.success {
          ThenAssociative(single, ta', TryInOrder(step, ta'.file, b));
        }
      }
    }
  }

  /** The attempt loop of `process_single_image` over the URLs `found`:
      nothing when there are none, otherwise the first `maxAttempts` tried
      in order until one succeeds. */
  function AttemptFound(found: seq<string>, step: Attempter, file: Option<nat>, maxAttempts: int): (t: Tries)
    ensures found == [] ==> t == Tries(false, [], file)
    ensures InOrder(t, Seqs.PyPrefix(found, maxAttempts))
    ensures maxAttempts >= 0 ==> |t.attempts| <= maxAttempts
    ensures |t.attempts| <= |found|
    ensures forall i :: 0 <= i < |t.attempts| ==> t.attempts[i].url == found[i]
    ensures !t.success && maxAttempts >= 0 ==> |t.attempts| == if maxAttempts < |found| then maxAttempts else |found|
    ensures !t.success && maxAttempts < 0 ==> |t.attempts| == if |found| + maxAttempts > 0 then |found| + maxAttempts else 0
  {
    if found == [] then Tries(false, [], file)
    else
      var urls := Seqs.PyPrefix(found, maxAttempts);
      var t := TryInOrder(step, file, urls);
      assert forall i :: 0 <= i < |urls| ==> urls[i] == found[i];
      t
  }

  /** Attempt `i` of `AttemptFound` is `step` on `found[i]` against the
      target the earlier attempts left, and the target ends as the attempts
      made leave it. */
  lemma AttemptFoundFollowsStep(found: seq<string>, step: Attempter, file: Option<nat>, maxAttempts: int)
    ensures var t := AttemptFound(found, step, file, maxAttempts);
      (forall i :: 0 <= i < |t.attempts| ==>
         t.attempts[i].outcome == step(FileAfter(step, file, found[..i]), found[i]).outcome)
      && t.file == FileAfter(step, file, found[..|t.attempts|])
  {
    if found != [] {
      var urls := Seqs.PyPrefix(found, maxAttempts);
      TryInOrderFollowsStep(step, file, urls);
      Seqs.PrefixesOfPrefix(urls, found);
    }
  }

  /** `process_single_image(filename, folder, max_attempts)`: the attempt
      loop over what `search_images_direct(filename, max_results=5)` found. */
  function ProcessSingleImage(
    filename: string, web: ImageSearch.SearchWeb, server: Server, disk: Downloader.Disk,
    cleanup: Downloader.Cleanup, file: Option<nat>, maxAttempts: int): (t: Tries)
    ensures ImageSearch.SearchImagesDirect(filename, web, 5).selected == [] ==> t == Tries(false, [], file)
    ensures InOrder(t, Seqs.PyPrefix(ImageSearch.SearchImagesDirect(filename, web, 5).selected, maxAttempts))
    ensures |t.attempts| <= 5
    ensures maxAttempts >= 0 ==> |t.attempts| <= maxAttempts
    ensures |t.attempts| <= |ImageSearch.SearchImagesDirect(filename, web, 5).selected|
    ensures forall i :: 0 <= i < |t.attempts| ==> t.attempts[i].url == ImageSearch.SearchImagesDirect(filename, web, 5).selected[i]
    ensures forall i :: 0 <= i < |t.attempts| ==> t.attempts[i].url in ImageSearch.SearchImagesDirect(filename, web, 5).collected
  {
    var search := ImageSearch.SearchImagesDirect(filename, web, 5);
    AttemptSelected(search, Downloads(cleanup, disk, server), file, maxAttempts)
  }

  /** The attempt loop over a search's selection, which holds at most five
      collected URLs. */
  function AttemptSelected(search: ImageSearch.Search, step: Attempter, file: Option<nat>, maxAttempts: int): (t: Tries)
    requires |search.selected| <= 5
    requires forall i :: 0 <= i < |search.selected| ==> search.selected[i] in search.collected
    ensures search.selected == [] ==> t == Tries(false, [], file)
    ensures InOrder(t, Seqs.PyPrefix(search.selected, maxAttempts))
    ensures |t.attempts| <= 5
    ensures maxAttempts >= 0 ==> |t.attempts| <= maxAttempts
    ensures |t.attempts| <= |search.selected|
    ensures forall i :: 0 <= i < |t.attempts| ==> t.attempts[i].url == search.selected[i]
    ensures forall i :: 0 <= i < |t.attempts| ==> t.attempts[i].url in search.collected
  {
    var t := AttemptFound(search.selected, step, file, maxAttempts);
    WithinCollected(t, search);
    t
  }

  /** Attempts on a prefix of the selected URLs stay within what was
      collected, and there are at most five of them. */
  lemma WithinCollected(t: Tries, search: ImageSearch.Search)
    requires |search.selected| <= 5
    requires forall i :: 0 <= i < |search.selected| ==> search.selected[i] in search.collected
    requires |t.attempts| <= |search.selected|
    requires forall i :: 0 <= i < |t.attempts| ==> t.attempts[i].url == search.selected[i]
    ensures |t.attempts| <= 5
    ensures forall i :: 0 <= i < |t.attempts| ==> t.attempts[i].url in search.collected
  {
  }

  // ---------------------------------------------------------------------------
  // Fallback sources
  // ---------------------------------------------------------------------------

  /** A fallback key and the stock-photo URLs tried for it. */
  datatype Fallback = Fallback(key: string, urls: seq<string>)

  /** The fallback table, in its declared (and iteration) order. */
  const FallbackSources: seq<Fallback> := [
    Fallback("tshirt", [
      "https://images.unsplash.com/photo-1521572163474-6864f9cf17ab",
      "https://images.unsplash.com/photo-1523381210434-271e8be1f52b"]),
    Fallback("shorts", ["https://images.unsplash.com/photo-1591195853828-11db59a44f6b"]),
    Fallback("sweatshirt", ["https://images.unsplash.com/photo-1556821840-3a63f95609a7"]),
    Fallback("hoodie", ["https://images.unsplash.com/photo-1556821840-3a63f95609a7"]),
    Fallback("jeans", ["https://images.unsplash.com/photo-1542272604-787c3835535d"]),
    Fallback("dress", ["https://images.unsplash.com/photo-1567095761054-7a02e69e5c43"])
  ]

  /** `key in name`. */
  predicate KeyMatches(f: Fallback, name: string) {
    Text.Includes(name, f.key)
  }

  /** The URLs of the entries whose key occurs in `name`, entry by entry. */
  function MatchingUrls(table: seq<Fallback>, name: string): seq<string>
  {
    if table == [] then []
    else (if KeyMatches(table[0], name) then table[0].urls else []) + MatchingUrls(table[1..], name)
  }

  /** The loop of `download_with_fallback` over the table: for every entry
      whose key occurs in `name`, try its URLs, and return at the first
      success. The nested loop is one ordered attempt list: the URLs of the
      matching keys, key after key, tried until the first success. */
  function FallbackLoop(table: seq<Fallback>, name: string, step: Attempter, file: Option<nat>): (t: Tries)
    ensures t == TryInOrder(step, file, MatchingUrls(table, name))
    decreases |table|
  {
    if table == [] then Tries(false, [], file)
    else if KeyMatches(table[0], name) then
      var t := TryInOrder(step, file, table[0].urls);
      TryInOrderAppend(step, file, table[0].urls, MatchingUrls(table[1..], name));
      if t.success then t else Then(t, FallbackLoop(table[1..], name, step, t.file))
    else
      assert MatchingUrls(table, name) == [] + MatchingUrls(table[1..], name);
      assert [] + MatchingUrls(table[1..], name) == MatchingUrls(table[1..], name);
      FallbackLoop(table[1..], name, step, file)
  }

  /** `download_with_fallback(filename, folder)`: the keys are looked up in
      the lower-cased file name. It tries exactly the URLs of the matching
      keys, in table order, and succeeds exactly when one of them does. */
  function DownloadWithFallback(filename: string, cleanup: Downloader.Cleanup, file: Option<nat>, disk: Downloader.Disk, server: Server): (t: Tries)
    ensures InOrder(t, MatchingUrls(FallbackSources, Text.Lower(filename)))
    ensures t == TryInOrder(Downloads(cleanup, disk, server), file, MatchingUrls(FallbackSources, Text.Lower(filename)))
  {
    var step := Downloads(cleanup, disk, server);
    FallbackLoop(FallbackSources, Text.Lower(filename), step, file)
  }

  /** What an in-order run over `urls` promises: it tries a prefix of
      `urls` in order, stops at the first success, and exhausts the list
      only when every attempt failed. */
  predicate InOrder(t: Tries, urls: seq<string>)
  {
    && |t.attempts| <= |urls|
    && (forall i :: 0 <= i < |t.attempts| ==> t.attempts[i].url == urls[i])
    && (t.success <==> t.attempts != [] && t.attempts[|t.attempts| - 1].outcome.success)
    && (forall i :: 0 <= i < |t.attempts| - 1 ==> !t.attempts[i].outcome.success)
    && (!t.success ==> |t.attempts| == |urls|)
  }

  /** Every name containing "sweatshirt" contains "tshirt", so a sweatshirt
      image first gets the two T-shirt photos, and its own photo only after
      both failed. */
  lemma SweatshirtTriesTshirtFirst(name: string)
    requires Text.Contains(name, "sweatshirt")
    ensures KeyMatches(FallbackSources[0], name) && KeyMatches(FallbackSources[2], name)
    ensures var urls := MatchingUrls(FallbackSources, name);
      |urls| >= 3 && urls[..2] == FallbackSources[0].urls && FallbackSources[2].urls[0] in urls[2..]
  {
    var i :| Text.OccursAt(name, "sweatshirt", i);
    assert Text.OccursAt(name, "tshirt", i + 4) by {
      assert name[i + 4..i + 10] == "sweatshirt"[4..];
    }
    var table := FallbackSources;
    var rest := MatchingUrls(table[1..], name);
    assert MatchingUrls(table, name) == table[0].urls + rest;
    var rest2 := MatchingUrls(table[2..], name);
    assert table[1..][1..] == table[2..];
    assert table[2..][1..] == table[3..];
    assert rest2 == table[2].urls + MatchingUrls(table[3..], name);
    assert rest == (if KeyMatches(table[1], name) then table[1].urls else []) + rest2;
  }

  // ---------------------------------------------------------------------------
  // A partial file passes for a download
  // ---------------------------------------------------------------------------

  /** As written: when the first URL's image body breaks off after fewer
      than `MinSize` bytes, the second attempt finds the partial file and
      reports success, leaving an undersized image in place. */
  lemma PartialFileCountsAsSuccess(server: Server, u1: string, u2: string, contentType: string, written: nat, e: string)
    requires server(u1) == Downloader.Responded(Some(contentType), Downloader.Interrupted(written, e))
    requires Text.Includes(contentType, "image") && written < Downloader.MinSize
    ensures var t := TryInOrder(Downloads(Downloader.AsWritten, Downloader.NoDiskErrors, server), None, [u1, u2]);
      t.success && |t.attempts| == 2 && t.attempts[1].outcome == Downloader.Outcome(true, Downloader.AlreadyThere)
      && t.file == Some(written) && !Downloader.Sound(t.file)
  {
    var step := Downloads(Downloader.AsWritten, Downloader.NoDiskErrors, server);
    Downloader.InterruptedLeavesPartialFile(contentType, written, e);
    var first := step(None, u1);
    assert first == Downloader.DownloadImage(Downloader.AsWritten, None, Downloader.NoDiskErrors, server(u1));
    assert first == Downloader.Step(Downloader.Outcome(false, Downloader.ErrorMessage(e)), Some(written));
    var second := step(Some(written), u2);
    assert second == Downloader.DownloadImage(Downloader.AsWritten, Some(written), Downloader.NoDiskErrors, server(u2));
    assert second == Downloader.Step(Downloader.Outcome(true, Downloader.AlreadyThere), Some(written));
    assert [u1, u2][1..] == [u2];
    TryInOrderStep(step, None, [u1, u2]);
    TryInOrderStep(step, Some(written), [u2]);
  }

  /** With `DiscardPartial`, starting from a sound target, every success
      leaves an image of at least `MinSize` bytes. */
  lemma {:induction false} CorrectedSuccessMeansFullFile(file: Option<nat>, disk: Downloader.Disk, server: Server, urls: seq<string>)
    requires Downloader.Sound(file)
    ensures var t := TryInOrder(Downloads(Downloader.DiscardPartial, disk, server), file, urls);
      Downloader.Sound(t.file) && (t.success ==> t.file.Some? && t.file.value >= Downloader.MinSize)
    decreases |urls|
  {
    if urls != [] {
      var st := Downloads(Downloader.DiscardPartial, disk, server)(file, urls[0]);
      Downloader.DiscardPartialKeepsSound(file, disk, server(urls[0]));
      if !st.outcome.success {
        CorrectedSuccessMeansFullFile(st.file, disk, server, urls[1..]);
      }
    }
  }
}
