/**
 * The local Flask server: its rate limiter (`check_rate_limit`, the `rate_limit_required`
 * decorator, the `/api/rate-limit-status` snapshot) and the post-processing of the OCR
 * model's reply (code-fence extraction and the custom-date override).
 */
module LocalServer {
  import opened Values
  import opened PyStr
  import opened SlidingWindow

  /**
   * `check_rate_limit(client_id)`: prune the client's list to the window; refuse with the
   * seconds until the oldest request leaves it when RATE_LIMIT remain, otherwise record `now`
   * and admit with the number of requests left.
   */
  method CheckRateLimit(tracker: RequestTracker, client: string, now: int) returns (allowed: bool, value: int)
    requires tracker.Valid()
    modifies tracker
    ensures tracker.Valid()
    ensures tracker.table == old(tracker.table)[client := After(old(tracker.Requests(client)), now)]
    ensures allowed == Admits(old(tracker.Requests(client)), now)
    ensures allowed ==> value == RATE_LIMIT - |After(old(tracker.Requests(client)), now)| && 0 <= value < RATE_LIMIT
    ensures !allowed ==> value == Min(Pruned(old(tracker.Requests(client)), now)) + RATE_LIMIT_WINDOW - now && 0 < value
    ensures !allowed && old(tracker.Chronological(now)) ==> value <= RATE_LIMIT_WINDOW
    ensures old(tracker.Chronological(now)) ==> tracker.Chronological(now)
  {
    ghost var before := tracker.Requests(client);
    AfterBounded(before, now);
    if old(tracker.Chronological(now)) {
      AfterChronological(before, now);
    }
    tracker.Prune(client, now);
    var kept := tracker.Requests(client);
    if |kept| >= RATE_LIMIT {
      RefusedWait(before, now);
      var oldest := Min(kept);
      return false, oldest + RATE_LIMIT_WINDOW - now;
    }
    tracker.Append(client, now);
    return true, RATE_LIMIT - |tracker.Requests(client)|;
  }

  /** The countdown shown on refusal: `int(value // 60)` minutes and `int(value % 60)` seconds. */
  function Countdown(value: int): (r: (int, int))
    ensures r.0 * 60 + r.1 == value && 0 <= r.1 < 60
    ensures 0 <= value ==> 0 <= r.0
    ensures value <= RATE_LIMIT_WINDOW ==> r.0 <= 60
  {
    (value / 60, value % 60)
  }

  /** What the `rate_limit_required` decorator does for one request. */
  datatype Gate = Proceed | TooMany(minutes: int, seconds: int, retryAfter: int)

  /** `rate_limit_required`: rate-limit by remote address; on refusal answer 429 with the countdown. */
  method RateLimitRequired(tracker: RequestTracker, remoteAddr: string, now: int) returns (g: Gate)
    requires tracker.Valid()
    modifies tracker
    ensures tracker.Valid()
    ensures tracker.table == old(tracker.table)[remoteAddr := After(old(tracker.Requests(remoteAddr)), now)]
    ensures g.Proceed? <==> Admits(old(tracker.Requests(remoteAddr)), now)
    ensures g.TooMany? ==>
      g.retryAfter == Min(Pruned(old(tracker.Requests(remoteAddr)), now)) + RATE_LIMIT_WINDOW - now &&
      g.minutes * 60 + g.seconds == g.retryAfter && 0 <= g.seconds < 60 && 0 <= g.minutes
    ensures old(tracker.Chronological(now)) ==> tracker.Chronological(now)
  {
    var allowed, value := CheckRateLimit(tracker, remoteAddr, now);
    if !allowed {
      var (minutes, seconds) := Countdown(value);
      return TooMany(minutes, seconds, value);
    }
    return Proceed;
  }

  /** The JSON body of `/api/rate-limit-status`. */
  datatype Status = Status(limit: int, used: int, remaining: int, resetInSeconds: int)

  /** The snapshot computed from a client's list at `now`. */
  function StatusOf(ts: seq<int>, now: int): (s: Status)
    ensures s.limit == RATE_LIMIT && s.used + s.remaining == RATE_LIMIT
    ensures s.resetInSeconds >= 0
  {
    var kept := Pruned(ts, now);
    var secondsUntilReset := if kept != [] then Min(kept) + RATE_LIMIT_WINDOW - now else 0;
    Status(RATE_LIMIT, |kept|, RATE_LIMIT - |kept|, if secondsUntilReset < 0 then 0 else secondsUntilReset)
  }

  /**
   * The snapshot counts the requests inside the window; the reset time is zero exactly when none
   * is, and otherwise the time until the oldest leaves it.
   */
  lemma StatusMeaning(ts: seq<int>, now: int)
    ensures StatusOf(ts, now).used == |Pruned(ts, now)| <= |ts|
    ensures StatusOf(ts, now).resetInSeconds == 0 <==> Pruned(ts, now) == []
    ensures Pruned(ts, now) != [] ==>
      StatusOf(ts, now).resetInSeconds == Min(Pruned(ts, now)) + RATE_LIMIT_WINDOW - now
    ensures |ts| <= RATE_LIMIT ==> 0 <= StatusOf(ts, now).remaining <= RATE_LIMIT
    ensures NoLaterThan(ts, now) ==> StatusOf(ts, now).resetInSeconds <= RATE_LIMIT_WINDOW
  {
    PrunedMembers(ts, now);
  }

  /** Asked right after a check at the same time, the snapshot counts that check's list as it stands. */
  lemma StatusAfterCheck(ts: seq<int>, now: int)
    ensures StatusOf(After(ts, now), now).used == |After(ts, now)|
    ensures Admits(ts, now) ==> StatusOf(After(ts, now), now).used == |Pruned(ts, now)| + 1
  {
    PrunedMembers(ts, now);
    AfterInWindow(ts, now);
    PrunedAll(After(ts, now), now);
  }

  /** `rate_limit_status`: prune the caller's list (it never appends) and report the snapshot. */
  method RateLimitStatus(tracker: RequestTracker, remoteAddr: string, now: int) returns (s: Status)
    requires tracker.Valid()
    modifies tracker
    ensures tracker.Valid()
    ensures tracker.table == old(tracker.table)[remoteAddr := Pruned(old(tracker.Requests(remoteAddr)), now)]
    ensures s == StatusOf(old(tracker.Requests(remoteAddr)), now)
    ensures old(tracker.Chronological(now)) ==> tracker.Chronological(now)
  {
    ghost var before := tracker.Requests(remoteAddr);
    if old(tracker.Chronological(now)) {
      PrunedSorted(before, now);
      PrunedMembers(before, now);
    }
    tracker.Prune(remoteAddr, now);
    var kept := tracker.Requests(remoteAddr);
    var used := |kept|;
    var secondsUntilReset := 0;
    if kept != [] {
      var oldest := Min(kept);
      secondsUntilReset := oldest + RATE_LIMIT_WINDOW - now;
    }
    s := Status(RATE_LIMIT, used, RATE_LIMIT - used, if secondsUntilReset < 0 then 0 else secondsUntilReset);
  }

  /** The text between an opening fence whose body starts at `start` and the next "```" (Python's `find` and slice). */
  function FencedBody(t: string, start: nat): (r: string)
    ensures Unpadded(r) && |r| <= |t|
  {
    Strip(Slice(t, start, Find(t, "```", start)))
  }

  /**
   * The fence extraction of `process_ocr_with_gemini`: the text after the first "```json", or
   * failing that after the first "```", up to the next "```", stripped; text without a fence
   * is returned as it is.
   */
  function ExtractFenced(t: string): (r: string)
    ensures |r| <= |t|
    ensures Contains(t, "```") ==> Unpadded(r)
  {
    if Contains(t, "```json") then
      ContainsFind(t, "```json");
      FencedBody(t, Find(t, "```json", 0) + 7)
    else if Contains(t, "```") then
      ContainsFind(t, "```");
      FencedBody(t, Find(t, "```", 0) + 3)
    else t
  }

  /** A closing fence at `j`, the first at or after `start`: the body is the stripped text in between. */
  lemma FencedBodyClosed(t: string, start: nat, j: int)
    requires FirstFrom(t, "```", start, j)
    ensures FencedBody(t, start) == Strip(t[start..j])
  {
    FindFirstFrom(t, "```", start, j);
  }

  /**
   * No closing fence: `find` gives -1 and the slice `[start:-1]` ends one before the end, so
   * the last character is dropped.
   */
  lemma FencedBodyUnclosed(t: string, start: nat)
    requires start <= |t| && NoneFrom(t, "```", start)
    ensures FencedBody(t, start) == if start < |t| then Strip(t[start..|t| - 1]) else []
  {
  }

  lemma FirstOccurrence(t: string, sub: string)
    requires Contains(t, sub)
    ensures FirstFrom(t, sub, 0, Find(t, sub, 0))
  {
    ContainsFind(t, sub);
  }

  /** A "```json" fence closed later: the stripped text strictly between the two fences. */
  lemma ExtractJsonClosed(t: string, i: int, j: int)
    requires FirstFrom(t, "```json", 0, i) && FirstFrom(t, "```", i + 7, j)
    ensures ExtractFenced(t) == Strip(t[i + 7..j])
  {
    assert Contains(t, "```json") by { assert OccursAt(t, "```json", i); }
    FindFirstFrom(t, "```json", 0, i);
    FencedBodyClosed(t, i + 7, j);
  }

  /** A "```json" fence never closed: everything after it but the last character, stripped. */
  lemma ExtractJsonUnclosed(t: string, i: int)
    requires FirstFrom(t, "```json", 0, i) && NoneFrom(t, "```", i + 7)
    ensures ExtractFenced(t) == if i + 7 < |t| then Strip(t[i + 7..|t| - 1]) else []
  {
    assert Contains(t, "```json") by { assert OccursAt(t, "```json", i); }
    FindFirstFrom(t, "```json", 0, i);
    assert ExtractFenced(t) == FencedBody(t, i + 7);
    FencedBodyUnclosed(t, i + 7);
  }

  /** A bare "```" fence (no "```json" anywhere) closed later: the stripped text between the fences. */
  lemma ExtractBareClosed(t: string, i: int, j: int)
    requires !Contains(t, "```json")
    requires FirstFrom(t, "```", 0, i) && FirstFrom(t, "```", i + 3, j)
    ensures ExtractFenced(t) == Strip(t[i + 3..j])
  {
    assert Contains(t, "```") by { assert OccursAt(t, "```", i); }
    FindFirstFrom(t, "```", 0, i);
    FencedBodyClosed(t, i + 3, j);
  }

  /** A bare "```" fence never closed: everything after it but the last character, stripped. */
  lemma ExtractBareUnclosed(t: string, i: int)
    requires !Contains(t, "```json")
    requires FirstFrom(t, "```", 0, i) && NoneFrom(t, "```", i + 3)
    ensures ExtractFenced(t) == if i + 3 < |t| then Strip(t[i + 3..|t| - 1]) else []
  {
    assert Contains(t, "```") by { assert OccursAt(t, "```", i); }
    FindFirstFrom(t, "```", 0, i);
    assert ExtractFenced(t) == FencedBody(t, i + 3);
    FencedBodyUnclosed(t, i + 3);
  }

  /** Text without any fence is passed on unchanged. */
  lemma ExtractUnfenced(t: string)
    requires !Contains(t, "```")
    ensures ExtractFenced(t) == t
  {
    if Contains(t, "```json") {
      var i :| 0 <= i <= |t| && OccursAt(t, "```json", i);
      assert t[i..i + 3] == t[i..i + 7][..3];
      assert OccursAt(t, "```", i);
    }
  }

  /** A reply that is one fenced JSON block, possibly after backtick-free prose: the block's body, stripped. */
  lemma ExtractJsonBlock(pre: string, body: string, post: string)
    requires '`' !in pre && '`' !in body
    ensures ExtractFenced(pre + "```json" + body + "```" + post) == Strip(body)
  {
    var t := pre + "```json" + body + "```" + post;
    var i, j := |pre|, |pre| + 7 + |body|;
    assert t[i..i + 7] == "```json";
    assert t[j..j + 3] == "```";
    forall k | 0 <= k < i ensures !OccursAt(t, "```json", k) {
      assert t[k] == pre[k];
    }
    forall k | i + 7 <= k < j ensures !OccursAt(t, "```", k) {
      assert t[k] == body[k - i - 7] && body[k - i - 7] in body;
    }
    assert t[i + 7..j] == body;
    ExtractJsonClosed(t, i, j);
  }

  /** The date sent with the upload replaces "tanggal" when it is non-empty; setting it on a non-object fails. */
  function OverrideDate(result: Json, customDate: Option<string>): (r: OcrOutcome)
    ensures customDate.None? || customDate.value == "" ==> r == Extracted(result)
    ensures customDate.Some? && customDate.value != "" && result.Object? ==>
      r.Extracted? && r.data.Object? && r.data.fields.Keys == result.fields.Keys + {"tanggal"} &&
      r.data.fields["tanggal"] == Str(customDate.value) &&
      forall k :: k in result.fields && k != "tanggal" ==> r.data.fields[k] == result.fields[k]
    ensures customDate.Some? && customDate.value != "" && !result.Object? ==> r == Failed
  {
    if customDate.Some? && customDate.value != "" then
      if result.Object? then Extracted(Object(result.fields["tanggal" := Str(customDate.value)])) else Failed
    else Extracted(result)
  }

  /** The outcome of `process_ocr_with_gemini` once the model has replied. */
  datatype OcrOutcome = KeyMissing | Extracted(data: Json) | Failed

  /** What is stored when the reply is not valid JSON: the whole text as the chat, no number, no date. */
  function Fallback(text: string): (r: Json)
    ensures r.Object? && r.fields.Keys == {"isi_chat", "nomor_telepon", "tanggal"}
    ensures r.fields["isi_chat"] == Str(text) && r.fields["nomor_telepon"] == Null && r.fields["tanggal"] == Null
  {
    var m := map["isi_chat" := Str(text), "nomor_telepon" := Null, "tanggal" := Null];
    assert "isi_chat" != "tanggal" && "nomor_telepon" != "tanggal" && "isi_chat" != "nomor_telepon" by {
      assert "isi_chat"[0] != "tanggal"[0] && "nomor_telepon"[0] != "tanggal"[0] && "isi_chat"[0] != "nomor_telepon"[0];
    }
    Object(m)
  }

  /**
   * The result built from the extracted text and the parser's answer for it (None when
   * `json.loads` raises a decode error): the decoded value, or the fallback record; then the
   * custom-date override. With a non-empty custom date a record always carries that date.
   */
  function BuildResult(text: string, decoded: Option<Json>, customDate: Option<string>): (r: OcrOutcome)
    ensures decoded.None? ==>
      (r.Extracted? && r.data.Object? &&
       "isi_chat" in r.data.fields && "nomor_telepon" in r.data.fields && "tanggal" in r.data.fields &&
       r.data.fields["isi_chat"] == Str(text) && r.data.fields["nomor_telepon"] == Null &&
       r.data.fields["tanggal"] == (if customDate.Some? && customDate.value != "" then Str(customDate.value) else Null))
    ensures customDate.Some? && customDate.value != "" && r.Extracted? ==>
      r.data.Object? && "tanggal" in r.data.fields && r.data.fields["tanggal"] == Str(customDate.value)
    ensures r != KeyMissing
  {
    var result := match decoded
      case Some(v) => v
      case None => Fallback(text);
    OverrideDate(result, customDate)
  }

  /**
   * `process_ocr_with_gemini` after the model call: an empty key is refused; otherwise the
   * reply is stripped, its fenced body extracted and handed to the JSON parser `parse`, and
   * the result built from the parser's answer.
   */
  function ProcessOcr(apiKey: string, reply: string, parse: string -> Option<Json>, customDate: Option<string>): (r: OcrOutcome)
    ensures r == KeyMissing <==> apiKey == ""
  {
    if apiKey == "" then KeyMissing
    else
      var text := ExtractFenced(Strip(reply));
      BuildResult(text, parse(text), customDate)
  }
}
