/**
 * The serverless Flask API: its rate limiter keyed by API-key prefix, the upload checks of
 * `/api/process`, and the fence stripping of the OCR model's reply.
 */
module ServerlessApi {
  import opened Values
  import opened PyStr
  import opened Uploads
  import opened SlidingWindow

  /** `check_rate_limit(client_id)`: prune, refuse at RATE_LIMIT, otherwise record `now` and admit. */
  method CheckRateLimit(tracker: RequestTracker, client: string, now: int) returns (allowed: bool)
    requires tracker.Valid()
    modifies tracker
    ensures tracker.Valid()
    ensures allowed == Admits(old(tracker.Requests(client)), now)
    ensures allowed ==> tracker.table == old(tracker.table)[client := Pruned(old(tracker.Requests(client)), now) + [now]]
    ensures !allowed ==> tracker.table == old(tracker.table)[client := Pruned(old(tracker.Requests(client)), now)]
    ensures tracker.Requests(client) == After(old(tracker.Requests(client)), now)
    ensures old(tracker.Chronological(now)) ==> tracker.Chronological(now)
  {
    ghost var before := tracker.Requests(client);
    AfterBounded(before, now);
    if old(tracker.Chronological(now)) {
      AfterChronological(before, now);
    }
    tracker.Prune(client, now);
    if |tracker.Requests(client)| >= RATE_LIMIT {
      return false;
    }
    tracker.Append(client, now);
    return true;
  }

  /** `request.headers.get('X-API-Key', '')[:8] or request.remote_addr` (an absent header reads as ""). */
  function ClientId(apiKey: string, remoteAddr: string): (id: string)
    ensures apiKey == "" ==> id == remoteAddr
    ensures apiKey != "" ==> id != "" && StartsWith(apiKey, id) && |id| == if |apiKey| < 8 then |apiKey| else 8
  {
    var prefix := Slice(apiKey, 0, 8);
    if prefix != "" then prefix else remoteAddr
  }

  /** Keys that agree on their first eight characters share one rate-limit bucket. */
  lemma SharedBucket(key1: string, key2: string, addr1: string, addr2: string)
    requires |key1| >= 8 && |key2| >= 8 && key1[..8] == key2[..8]
    ensures ClientId(key1, addr1) == ClientId(key2, addr2)
  {
  }

  /** What the `rate_limit` decorator does for one request. */
  datatype Gate = Proceed | TooMany(retryAfter: int)

  /**
   * `rate_limit`: check the client's bucket at `now`; on refusal answer 429 with the seconds
   * until its first recorded request leaves the window, measured at `later`, the second
   * reading of the clock.
   */
  method RateLimit(tracker: RequestTracker, apiKey: string, remoteAddr: string, now: int, later: int) returns (g: Gate)
    requires tracker.Valid()
    modifies tracker
    ensures tracker.Valid()
    ensures var client := ClientId(apiKey, remoteAddr);
      tracker.table == old(tracker.table)[client := After(old(tracker.Requests(client)), now)] &&
      (g.Proceed? <==> Admits(old(tracker.Requests(client)), now)) &&
      (g.TooMany? ==> Pruned(old(tracker.Requests(client)), now) != [] &&
                      g.retryAfter == RATE_LIMIT_WINDOW - (later - Pruned(old(tracker.Requests(client)), now)[0]))
    ensures var client := ClientId(apiKey, remoteAddr);
      g.TooMany? && old(tracker.Chronological(now)) ==>
        g.retryAfter == Min(Pruned(old(tracker.Requests(client)), now)) + RATE_LIMIT_WINDOW - later
    ensures old(tracker.Chronological(now)) ==> tracker.Chronological(now)
  {
    var client := ClientId(apiKey, remoteAddr);
    ghost var before := tracker.Requests(client);
    var allowed := CheckRateLimit(tracker, client, now);
    if !allowed {
      RefusedWait(before, now);
      if old(tracker.Chronological(now)) {
        PrunedSorted(before, now);
        OldestFirst(Pruned(before, now));
      }
      var remainingTime := RATE_LIMIT_WINDOW - (later - tracker.Requests(client)[0]);
      return TooMany(remainingTime);
    }
    return Proceed;
  }

  /**
   * The wait `retry_after` reports when the clock is read once: in a list kept in arrival order,
   * the first entry is the oldest, so the wait is positive and at most one window.
   */
  lemma RetryAfterBounds(ts: seq<int>, now: int)
    requires Sorted(ts) && NoLaterThan(ts, now) && !Admits(ts, now)
    ensures Pruned(ts, now) != [] && Pruned(ts, now)[0] == Min(Pruned(ts, now))
    ensures 0 < RATE_LIMIT_WINDOW - (now - Pruned(ts, now)[0]) <= RATE_LIMIT_WINDOW
  {
    RefusedWait(ts, now);
    PrunedSorted(ts, now);
    OldestFirst(Pruned(ts, now));
  }

  /** `all(img.filename == '' for img in images)`. */
  predicate AllEmpty(names: seq<string>) {
    forall k :: 0 <= k < |names| ==> names[k] == ""
  }

  /** Every name passes `allowed_file`. */
  predicate AllAllowed(names: seq<string>) {
    forall k :: 0 <= k < |names| ==> AllowedFile(names[k])
  }

  /** The upload checks' verdict: accepted, or the HTTP status and error text returned. */
  datatype Verdict = Accepted | Rejected(status: int, error: string)

  /** The position of the first name, in list order, that `allowed_file` rejects. */
  function FirstDisallowed(names: seq<string>): (r: Option<nat>)
    ensures r.None? <==> AllAllowed(names)
    ensures r.Some? ==> r.value < |names| && !AllowedFile(names[r.value]) &&
                        forall k :: 0 <= k < r.value ==> AllowedFile(names[k])
  {
    if names == [] then None
    else if !AllowedFile(names[0]) then Some(0)
    else
      var rest := FirstDisallowed(names[1..]);
      assert forall k :: 1 <= k < |names| ==> names[k] == names[1..][k - 1];
      if rest.None? then None else Some(rest.value + 1)
  }

  /**
   * The checks of `process_image` before any model call, in the order it makes them: a missing
   * key is 401; a missing `images` field (None), an empty list or only empty names are 400;
   * otherwise the batch is accepted exactly when every name is allowed, and a rejection names
   * the first disallowed file in list order.
   */
  function Validation(apiKey: string, images: Option<seq<string>>): (v: Verdict)
    ensures apiKey == "" ==> v == Rejected(401, "API key is required")
    ensures apiKey != "" && images.None? ==> v == Rejected(400, "No images provided")
    ensures apiKey != "" && images.Some? && (images.value == [] || AllEmpty(images.value)) ==>
      v == Rejected(400, "No images selected")
    ensures v == Accepted <==>
      apiKey != "" && images.Some? && images.value != [] && !AllEmpty(images.value) && AllAllowed(images.value)
    ensures v.Rejected? ==> (v.status == 401 <==> apiKey == "")
    ensures forall i :: (apiKey != "" && images.Some? && images.value != [] && !AllEmpty(images.value) &&
                         0 <= i < |images.value| && !AllowedFile(images.value[i]) &&
                         (forall k :: 0 <= k < i ==> AllowedFile(images.value[k]))) ==>
      v == Rejected(400, "File type not allowed: " + images.value[i])
  {
    if apiKey == "" then Rejected(401, "API key is required")
    else if images.None? then Rejected(400, "No images provided")
    else if images.value == [] || AllEmpty(images.value) then Rejected(400, "No images selected")
    else match FirstDisallowed(images.value)
      case Some(i) => Rejected(400, "File type not allowed: " + images.value[i])
      case None => Accepted
  }

  /** The validation loop of `process_image`: return at the first disallowed name. */
  method ValidateBatch(apiKey: string, images: Option<seq<string>>) returns (v: Verdict)
    ensures v == Validation(apiKey, images)
  {
    if apiKey == "" {
      return Rejected(401, "API key is required");
    }
    if images.None? {
      return Rejected(400, "No images provided");
    }
    var names := images.value;
    if names == [] || AllEmpty(names) {
      return Rejected(400, "No images selected");
    }
    var i := 0;
    while i < |names|
      invariant 0 <= i <= |names|
      invariant forall k :: 0 <= k < i ==> AllowedFile(names[k])
    {
      if !AllowedFile(names[i]) {
        return Rejected(400, "File type not allowed: " + names[i]);
      }
      i := i + 1;
    }
    return Accepted;
  }

  /**
   * The fence stripping of `process_image`: a reply starting with "```" loses its first line
   * (or its first three characters when it has no newline), then one trailing "```" if present,
   * and is stripped; any other reply is returned as it is.
   */
  function StripFence(t: string): (r: string)
    ensures |r| <= |t|
    ensures StartsWith(t, "```") ==> Unpadded(r)
  {
    if StartsWith(t, "```") then
      var rest := if Contains(t, "\n") then (ContainsFind(t, "\n"); t[Find(t, "\n", 0) + 1..]) else t[3..];
      var body := if EndsWith(rest, "```") then rest[..|rest| - 3] else rest;
      Strip(body)
    else t
  }

  /** A reply that does not open with a fence is kept as it is. */
  lemma StripFenceUnfenced(t: string)
    requires !StartsWith(t, "```")
    ensures StripFence(t) == t
  {
  }

  /** Where the first newline of `"```" + info + "\n" + body` is, when `info` has none. */
  lemma FirstNewline(info: string, rest: string)
    requires '\n' !in info
    ensures var t := "```" + info + "\n" + rest;
      Contains(t, "\n") && t[Find(t, "\n", 0) + 1..] == rest
  {
    var t := "```" + info + "\n" + rest;
    var n := 3 + |info|;
    assert t[n..n + 1] == "\n";
    forall k | 0 <= k < n ensures !OccursAt(t, "\n", k) {
      OccursAtChar(t, '\n', k);
      if k >= 3 {
        assert t[k] == info[k - 3] && info[k - 3] in info;
      }
    }
    FindFirstFrom(t, "\n", 0, n);
    assert OccursAt(t, "\n", n);
    assert t[n + 1..] == rest;
  }

  /** A closed block: opening line with its info string, body, closing fence; gives the body, stripped. */
  lemma StripFenceBlock(info: string, body: string)
    requires '\n' !in info
    ensures StripFence("```" + info + "\n" + body + "```") == Strip(body)
  {
    var t := "```" + info + "\n" + body + "```";
    assert t == "```" + info + "\n" + (body + "```");
    FirstNewline(info, body + "```");
    var rest := body + "```";
    assert rest[|rest| - 3..] == "```" && rest[..|rest| - 3] == body;
    assert t[..3] == "```";
  }

  /** An unclosed block: the opening line is dropped and the rest kept, stripped. */
  lemma StripFenceUnclosed(info: string, body: string)
    requires '\n' !in info && !EndsWith(body, "```")
    ensures StripFence("```" + info + "\n" + body) == Strip(body)
  {
    var t := "```" + info + "\n" + body;
    FirstNewline(info, body);
    assert t[..3] == "```";
  }

  /** A one-line block "```" + body + "```": only the two fences are removed. */
  lemma StripFenceOneLine(body: string)
    requires '\n' !in body
    ensures StripFence("```" + body + "```") == Strip(body)
  {
    var t := "```" + body + "```";
    assert t[..3] == "```";
    assert !Contains(t, "\n") by {
      forall k | 0 <= k < |t| ensures !OccursAt(t, "\n", k) {
        OccursAtChar(t, '\n', k);
        if 3 <= k < 3 + |body| {
          assert t[k] == body[k - 3] && body[k - 3] in body;
        }
      }
    }
    var rest := t[3..];
    assert rest == body + "```";
    assert rest[|rest| - 3..] == "```" && rest[..|rest| - 3] == body;
  }

  /** An opening fence with no newline and no closing fence: only the first three characters go. */
  lemma StripFenceOpenOnly(body: string)
    requires '\n' !in body && !EndsWith(body, "```")
    ensures StripFence("```" + body) == Strip(body)
  {
    var t := "```" + body;
    assert t[..3] == "```";
    assert !Contains(t, "\n") by {
      forall k | 0 <= k < |t| ensures !OccursAt(t, "\n", k) {
        OccursAtChar(t, '\n', k);
        if 3 <= k {
          assert t[k] == body[k - 3] && body[k - 3] in body;
        }
      }
    }
    assert t[3..] == body;
  }

  /** One entry of the response's `results`: the parsed messages, or [] and the raw text when parsing fails. */
  datatype ImageResult = ImageResult(filename: string, messages: Json, rawResponse: Option<string>)

  /**
   * The handling of one model reply in `process_image`: strip it, strip its fence, hand it to
   * the JSON parser `parse` (None when it raises a decode error). The entry keeps the file's
   * name; a reply that does not parse is kept, stripped, in place of the messages.
   */
  function ReadReply(filename: string, reply: string, parse: string -> Option<Json>): (r: ImageResult)
    ensures r.filename == filename
    ensures r.rawResponse.Some? ==> r.messages == Array([]) && |r.rawResponse.value| <= |reply|
  {
    var text := StripFence(Strip(reply));
    match parse(text)
    case Some(messages) => ImageResult(filename, messages, None)
    case None => ImageResult(filename, Array([]), Some(text))
  }

  /**
   * A reply that is one fenced block: the parser is handed the block's body, stripped; its
   * messages are the entry's when it parses, and otherwise the stripped body is kept as the raw text.
   */
  lemma ReadReplyFenced(filename: string, info: string, body: string, parse: string -> Option<Json>)
    requires '\n' !in info
    ensures var r := ReadReply(filename, "```" + info + "\n" + body + "```", parse);
      (parse(Strip(body)).Some? ==> r.messages == parse(Strip(body)).value && r.rawResponse.None?) &&
      (parse(Strip(body)).None? ==> r.messages == Array([]) && r.rawResponse == Some(Strip(body)))
  {
    var reply := "```" + info + "\n" + body + "```";
    assert reply[0] == '`' && reply[|reply| - 1] == '`';
    StripPadded([], reply, []);
    assert [] + reply + [] == reply;
    StripFenceBlock(info, body);
  }

  /**
   * What happened to one image inside the `try` of `process_image`: the model replied with
   * `text`, or loading the image or calling the model raised an exception whose text is `message`.
   */
  datatype Reply = Replied(text: string) | Raised(message: string)

  /** The response of `/api/process` after the rate limiter. */
  datatype Response = Refused(status: int, error: string) | Success(results: seq<ImageResult>)

  /** The 500 answer of the `except` branch. */
  const PROCESSING_FAILED: Response := Refused(500, "Processing failed. Please try again.")

  /**
   * The `except` branch of `process_image`. It looks for the capitalised "API key" in the
   * lower-cased message, which cannot contain a capital letter, so every exception is a 500.
   */
  function ErrorAnswer(message: string): (r: Response)
    ensures r == PROCESSING_FAILED
  {
    NoCapitalAfterLower(message);
    if Contains(Lower(message), "API key") then Refused(401, "Invalid API key")
    else PROCESSING_FAILED
  }

  /** A lower-cased string never contains "API key". */
  lemma NoCapitalAfterLower(s: string)
    ensures !Contains(Lower(s), "API key")
  {
    forall i | 0 <= i <= |s| ensures !OccursAt(Lower(s), "API key", i) {
      if i < |s| {
        assert Lower(s)[i] == LowerChar(s[i]) != 'A';
      }
    }
  }

  /** Every image was read and answered by the model. */
  predicate AllReplied(replies: seq<Reply>) {
    forall k :: 0 <= k < |replies| ==> replies[k].Replied?
  }

  /**
   * The loop of `process_image` over the images: one entry per image and reply, in order;
   * the first exception abandons the loop and answers from the `except` branch.
   */
  method ReadReplies(names: seq<string>, replies: seq<Reply>, parse: string -> Option<Json>)
    returns (resp: Response)
    requires |replies| == |names|
    ensures resp.Success? <==> AllReplied(replies)
    ensures !AllReplied(replies) ==> resp == PROCESSING_FAILED
    ensures resp.Success? ==>
      (|resp.results| == |names| &&
       forall k :: 0 <= k < |names| ==> resp.results[k] == ReadReply(names[k], replies[k].text, parse))
  {
    var results := [];
    var i := 0;
    while i < |names|
      invariant 0 <= i <= |names| && |results| == i
      invariant forall k :: 0 <= k < i ==>
        replies[k].Replied? && results[k] == ReadReply(names[k], replies[k].text, parse)
    {
      if replies[i].Raised? {
        return ErrorAnswer(replies[i].message);
      }
      var entry := ReadReply(names[i], replies[i].text, parse);
      results := results + [entry];
      i := i + 1;
    }
    return Success(results);
  }

  /**
   * `process_image`: validate, then read one model reply per image, in order. `replies[k]` is
   * what happened to the k-th image: the model's reply, or the exception raised.
   */
  method ProcessImage(apiKey: string, images: Option<seq<string>>, replies: seq<Reply>, parse: string -> Option<Json>)
    returns (resp: Response)
    requires images.Some? ==> |replies| == |images.value|
    ensures Validation(apiKey, images).Rejected? ==>
      resp == Refused(Validation(apiKey, images).status, Validation(apiKey, images).error)
    ensures resp.Success? <==> Validation(apiKey, images) == Accepted && AllReplied(replies)
    ensures Validation(apiKey, images) == Accepted && !AllReplied(replies) ==>
      resp == PROCESSING_FAILED
    ensures resp.Success? ==>
      (|resp.results| == |images.value| &&
       forall k :: 0 <= k < |images.value| ==> resp.results[k] == ReadReply(images.value[k], replies[k].text, parse))
  {
    var verdict := ValidateBatch(apiKey, images);
    if verdict.Rejected? {
      return Refused(verdict.status, verdict.error);
    }
    resp := ReadReplies(images.value, replies, parse);
  }
}
