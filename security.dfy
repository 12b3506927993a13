/**
 * security.py: the in-memory sliding-window `RateLimiter` and the input validators used by the
 * upload endpoint. `time.time()` is the parameter `now`; the request headers are parameters.
 */
module Security {

  import opened Wrappers
  import opened PyText

  /** `self.cleanup_interval`. */
  const CleanupInterval: real := 300.0
  /** `_cleanup` forgets timestamps older than an hour. */
  const HistoryHorizon: real := 3600.0
  /** `SecurityConfig.MAX_WATERMARK_LENGTH`. */
  const MaxWatermarkLength: int := 50
  /** The bounds of `validate_strength_parameter`. */
  const MinStrength: real := 0.05
  const MaxStrength: real := 0.3
  /** `len(filename) > 255` is refused. */
  const MaxFilenameLength: int := 255

  // ---------------------------------------------------------------------------------------
  // RateLimiter

  /** Timestamps in the order they were appended, never decreasing. */
  predicate Sorted(q: seq<real>) {
    forall i, j | 0 <= i < j < |q| :: q[i] <= q[j]
  }

  /**
   * `while requests and requests[0] < cutoff: requests.popleft()`: the deque without its front
   * run of timestamps older than `cutoff`.
   */
  function DropOlder(q: seq<real>, cutoff: real): (r: seq<real>)
    ensures |r| <= |q| && r == q[|q| - |r|..]
    ensures r != [] ==> r[0] >= cutoff
    ensures forall i | 0 <= i < |q| - |r| :: q[i] < cutoff
  {
    if q != [] && q[0] < cutoff then
      var r := DropOlder(q[1..], cutoff);
      assert q[1..][|q[1..]| - |r|..] == q[|q| - |r|..];
      r
    else q
  }

  /** On a sorted deque the front run is exactly the old timestamps: what is left is the recent ones. */
  lemma DropOlderKeepsRecent(q: seq<real>, cutoff: real)
    requires Sorted(q)
    ensures Sorted(DropOlder(q, cutoff))
    ensures forall i | 0 <= i < |q| :: (q[i] >= cutoff <==> i >= |q| - |DropOlder(q, cutoff)|)
  {
    var r := DropOlder(q, cutoff);
    var start := |q| - |r|;
    forall i | start <= i < |q|
      ensures q[i] >= cutoff
    {
      assert q[start] == r[0] >= cutoff;
      assert q[start] <= q[i];
    }
    forall i, j | 0 <= i < j < |r|
      ensures r[i] <= r[j]
    {
      assert r[i] == q[start + i] && r[j] == q[start + j];
    }
  }

  /** The popleft loop itself. */
  method PopOlder(q: seq<real>, cutoff: real) returns (r: seq<real>)
    ensures r == DropOlder(q, cutoff)
  {
    r := q;
    while r != [] && r[0] < cutoff
      invariant |r| <= |q| && r == q[|q| - |r|..]
      invariant DropOlder(r, cutoff) == DropOlder(q, cutoff)
      decreases |r|
    {
      r := r[1..];
    }
  }

  /** The clients `_cleanup` keeps, with their pruned histories. */
  function Pruned(clients: map<string, seq<real>>, cutoff: real): (r: map<string, seq<real>>)
    ensures forall c :: c in r <==> c in clients && DropOlder(clients[c], cutoff) != []
    ensures forall c | c in r :: r[c] == DropOlder(clients[c], cutoff)
  {
    map c | c in clients && DropOlder(clients[c], cutoff) != [] :: DropOlder(clients[c], cutoff)
  }

  /** A history is sorted and no later than `now`. */
  predicate SortedBefore(q: seq<real>, now: real) {
    Sorted(q) && forall i | 0 <= i < |q| :: q[i] <= now
  }

  /** Every history is sorted and no later than `now`. */
  predicate HistoriesBefore(clients: map<string, seq<real>>, now: real) {
    forall c | c in clients :: SortedBefore(clients[c], now)
  }

  /** What `is_allowed` sees before the per-client pruning: the map after a due cleanup. */
  function BeforeWindow(clients: map<string, seq<real>>, lastCleanup: real, now: real): map<string, seq<real>> {
    if now - lastCleanup > CleanupInterval then Pruned(clients, now - HistoryHorizon) else clients
  }

  /** `self.clients[client_id]`: a `defaultdict(deque)` answers an empty deque for a new client. */
  function History(clients: map<string, seq<real>>, client: string): seq<real> {
    if client in clients then clients[client] else []
  }

  /** The client's history inside the window. */
  function Recent(clients: map<string, seq<real>>, client: string, window: int, now: real): seq<real> {
    DropOlder(History(clients, client), now - window as real)
  }

  /** The clients after the window check: the pruned history, with `now` appended when allowed. */
  function Recorded(clients: map<string, seq<real>>, client: string, limit: int, window: int, now: real): map<string, seq<real>> {
    clients[client := Entry(clients, client, limit, window, now)]
  }

  /** The client's new history: the pruned one, with `now` appended when fewer than `limit` remain. */
  function Entry(clients: map<string, seq<real>>, client: string, limit: int, window: int, now: real): seq<real> {
    var recent := Recent(clients, client, window, now);
    if |recent| < limit then recent + [now] else recent
  }

  /**
   * The loops of `_cleanup`: every client's deque is popped in place, the clients left empty are
   * collected in `clients_to_remove` and deleted afterwards.
   */
  method PruneAll(start: map<string, seq<real>>, cutoff: real) returns (m: map<string, seq<real>>)
    ensures m == Pruned(start, cutoff)
  {
    m := start;
    var pending := m.Keys;
    var toRemove: set<string> := {};
    while pending != {}
      invariant PruneProgress(start, m, pending, toRemove, cutoff)
      decreases |pending|
    {
      var c :| c in pending;
      var requests := PopOlder(m[c], cutoff);
      PruneStep(start, m, pending, toRemove, cutoff, c);
      m := m[c := requests];
      if requests == [] {
        toRemove := toRemove + {c};
      }
      pending := pending - {c};
    }
    RemovingEmptiesPrunes(start, m, toRemove, cutoff);
    m := m - toRemove;
  }

  /**
   * The state of `_cleanup`'s first loop: the clients no longer pending have their pruned
   * histories, the pending ones their original ones, and the clients left empty are marked.
   */
  ghost predicate PruneProgress(start: map<string, seq<real>>, m: map<string, seq<real>>, pending: set<string>,
                          toRemove: set<string>, cutoff: real)
  {
    pending <= m.Keys && m.Keys == start.Keys &&
    (forall c | c in m && c !in pending :: m[c] == DropOlder(start[c], cutoff)) &&
    (forall c | c in pending :: m[c] == start[c]) &&
    (forall c :: c in toRemove <==> c in start && c !in pending && DropOlder(start[c], cutoff) == [])
  }

  /** Pruning client `c` moves it from pending to done. */
  lemma PruneStep(start: map<string, seq<real>>, m: map<string, seq<real>>, pending: set<string>,
                  toRemove: set<string>, cutoff: real, c: string)
    requires PruneProgress(start, m, pending, toRemove, cutoff) && c in pending
    ensures var requests := DropOlder(m[c], cutoff);
      PruneProgress(start, m[c := requests], pending - {c},
                    if requests == [] then toRemove + {c} else toRemove, cutoff)
  {
  }

  lemma RemovingEmptiesPrunes(start: map<string, seq<real>>, m: map<string, seq<real>>, toRemove: set<string>, cutoff: real)
    requires m.Keys == start.Keys && forall c | c in m :: m[c] == DropOlder(start[c], cutoff)
    requires forall c :: c in toRemove <==> c in start && DropOlder(start[c], cutoff) == []
    ensures m - toRemove == Pruned(start, cutoff)
  {
    var pruned := Pruned(start, cutoff);
    assert (m - toRemove).Keys == pruned.Keys;
  }

  class RateLimiter {
    var clients: map<string, seq<real>>
    var lastCleanup: real

    constructor(now: real)
      ensures clients == map[] && lastCleanup == now
    {
      clients := map[];
      lastCleanup := now;
    }

    /** `_cleanup`: prune every history to the last hour, then delete the clients left empty. */
    method Cleanup(now: real)
      modifies this
      ensures clients == Pruned(old(clients), now - HistoryHorizon)
      ensures lastCleanup == old(lastCleanup)
    {
      clients := PruneAll(clients, now - HistoryHorizon);
    }

    /**
     * `is_allowed`: a due cleanup first, then the client's history is pruned to the window;
     * the request is allowed iff fewer than `limit` remain, and only then is `now` recorded.
     */
    method IsAllowed(client: string, limit: int, window: int, now: real) returns (allowed: bool)
      modifies this
      ensures var base := BeforeWindow(old(clients), old(lastCleanup), now);
        allowed == (|Recent(base, client, window, now)| < limit) &&
        clients == Recorded(base, client, limit, window, now)
      ensures lastCleanup == if now - old(lastCleanup) > CleanupInterval then now else old(lastCleanup)
      ensures allowed ==> |clients[client]| <= limit
    {
      ghost var base := BeforeWindow(clients, lastCleanup, now);
      if now - lastCleanup > CleanupInterval {
        Cleanup(now);
        lastCleanup := now;
      }
      assert clients == base;
      allowed := Admit(client, limit, window, now);
    }

    /** The window check of `is_allowed`, after any cleanup: prune the client's deque, then record `now` if allowed. */
    method Admit(client: string, limit: int, window: int, now: real) returns (allowed: bool)
      modifies this
      ensures allowed == (|Recent(old(clients), client, window, now)| < limit)
      ensures clients == Recorded(old(clients), client, limit, window, now)
      ensures lastCleanup == old(lastCleanup)
    {
      var cs := clients;
      var requests := PopOlder(History(cs, client), now - window as real);
      assert requests == Recent(cs, client, window, now);
      if |requests| < limit {
        assert requests + [now] == Entry(cs, client, limit, window, now);
        clients := cs[client := requests + [now]];
        allowed := true;
      } else {
        assert requests == Entry(cs, client, limit, window, now);
        clients := cs[client := requests];
        allowed := false;
      }
    }
  }

  /** What is left of a sorted history after dropping a front run is sorted too. */
  lemma SuffixSortedBefore(q: seq<real>, r: seq<real>, now: real)
    requires SortedBefore(q, now) && |r| <= |q| && r == q[|q| - |r|..]
    ensures SortedBefore(r, now)
  {
    assert forall i | 0 <= i < |r| :: r[i] == q[|q| - |r| + i];
  }

  /** A cleanup keeps every history sorted and no later than `now`. */
  lemma PrunedSortedBefore(clients: map<string, seq<real>>, cutoff: real, now: real)
    requires HistoriesBefore(clients, now)
    ensures HistoriesBefore(Pruned(clients, cutoff), now)
  {
    forall c | c in Pruned(clients, cutoff)
      ensures SortedBefore(Pruned(clients, cutoff)[c], now)
    {
      SuffixSortedBefore(clients[c], DropOlder(clients[c], cutoff), now);
    }
  }

  /**
   * With non-decreasing `now`, `is_allowed` keeps every history sorted: pruning keeps a suffix,
   * and what it appends is no earlier than anything recorded.
   */
  lemma AllowedKeepsSorted(clients: map<string, seq<real>>, lastCleanup: real, client: string,
                           limit: int, window: int, now: real)
    requires HistoriesBefore(clients, now)
    ensures HistoriesBefore(Recorded(BeforeWindow(clients, lastCleanup, now), client, limit, window, now), now)
  {
    var base := BeforeWindow(clients, lastCleanup, now);
    if now - lastCleanup > CleanupInterval {
      PrunedSortedBefore(clients, now - HistoryHorizon, now);
    }
    var h := History(base, client);
    assert SortedBefore(h, now);
    var recent := Recent(base, client, window, now);
    SuffixSortedBefore(h, recent, now);
    AppendLatest(recent, now);
    assert SortedBefore(recent + [now], now);
  }

  /** Appending `now` to a history no later than `now` keeps it sorted. */
  lemma AppendLatest(q: seq<real>, now: real)
    requires SortedBefore(q, now)
    ensures SortedBefore(q + [now], now)
  {
    var q' := q + [now];
    forall i, j | 0 <= i < j < |q'|
      ensures q'[i] <= q'[j]
    {
      if j < |q| {
        assert q'[i] == q[i] && q'[j] == q[j];
      } else {
        assert q'[i] <= now;
      }
    }
  }

  /** With the same limit on every call, no history grows past the limit. */
  lemma AllowedKeepsLimit(clients: map<string, seq<real>>, lastCleanup: real, client: string,
                          limit: int, window: int, now: real)
    requires limit >= 0 && forall c | c in clients :: |clients[c]| <= limit
    ensures var after := Recorded(BeforeWindow(clients, lastCleanup, now), client, limit, window, now);
      forall c | c in after :: |after[c]| <= limit
  {
    var base := BeforeWindow(clients, lastCleanup, now);
    assert forall c | c in base :: |base[c]| <= limit;
    assert |History(base, client)| <= limit;
  }

  /** A refused request only prunes: the history loses a front run and gains nothing. */
  lemma RefusedOnlyPrunes(clients: map<string, seq<real>>, client: string, limit: int, window: int, now: real)
    requires |Recent(clients, client, window, now)| >= limit
    ensures var h := History(clients, client);
      var after := Recorded(clients, client, limit, window, now)[client];
      |after| <= |h| && after == h[|h| - |after|..]
  {
  }

  // ---------------------------------------------------------------------------------------
  // get_client_ip

  /** A header or address that Python treats as true: present and non-empty. */
  predicate Truthy(v: Option<string>) {
    v.Some? && v.value != []
  }

  /**
   * `get_client_ip`: the first entry of X-Forwarded-For, trimmed; else X-Real-IP; else the
   * peer address; else 'unknown'.
   */
  function GetClientIp(forwardedFor: Option<string>, realIp: Option<string>, remoteAddr: Option<string>): (ip: string)
    ensures Truthy(forwardedFor) ==> ip == Strip(BeforeFirst(forwardedFor.value, ','))
    ensures Truthy(forwardedFor) ==> ',' !in ip && |ip| <= |forwardedFor.value|
    ensures !Truthy(forwardedFor) && Truthy(realIp) ==> ip == realIp.value
    ensures !Truthy(forwardedFor) && !Truthy(realIp) && Truthy(remoteAddr) ==> ip == remoteAddr.value
    ensures !Truthy(forwardedFor) && !Truthy(realIp) && !Truthy(remoteAddr) ==> ip == "unknown"
  {
    if Truthy(forwardedFor) then
      var first := BeforeFirst(forwardedFor.value, ',');
      var ip := Strip(first);
      assert forall i | 0 <= i < |ip| :: ip[i] in first;
      ip
    else if Truthy(realIp) then realIp.value
    else if Truthy(remoteAddr) then remoteAddr.value
    else "unknown"
  }

  // ---------------------------------------------------------------------------------------
  // validate_filename

  /** `ord(c) < 32 and c not in '\t\n\r'`. */
  predicate IsControl(c: char) {
    (c as int) < 32 && c != '\t' && c != '\n' && c != '\r'
  }

  /** `dangerous_extensions`. */
  const DangerousExtensions: set<string> :=
    {"exe", "bat", "cmd", "com", "pif", "scr", "vbs", "js", "jar",
     "msi", "dll", "sh", "py", "php", "jsp", "asp", "aspx"}

  /** `filename.lower().split('.')[-1] if '.' in filename else ''`. */
  function Extension(filename: string): (ext: string)
    ensures '.' !in filename ==> ext == ""
    ensures '.' in filename ==> ext == Lower(AfterLast(filename, '.'))
  {
    if '.' in filename then
      LowerAfterLast(filename);
      AfterLast(Lower(filename), '.')
    else ""
  }

  /** Lowering never makes or removes a '.', so the last one stays where it was. */
  lemma {:induction false} LastIndexLower(s: string, c: char)
    requires forall x: char :: LowerChar(x) == c <==> x == c
    ensures LastIndex(Lower(s), c) == LastIndex(s, c)
  {
    if s != [] {
      var l := Lower(s);
      assert l[..|s| - 1] == Lower(s[..|s| - 1]);
      LastIndexLower(s[..|s| - 1], c);
    }
  }

  /** The text after the last '.' of the lowered name is the lowered text after the last '.'. */
  lemma LowerAfterLast(s: string)
    ensures AfterLast(Lower(s), '.') == Lower(AfterLast(s, '.'))
  {
    LastIndexLower(s, '.');
    var k := LastIndex(s, '.');
    assert Lower(s)[k + 1..] == Lower(s[k + 1..]);
  }

  /** `validate_filename`: false at the first check that fails, true when all pass. */
  function ValidateFilename(filename: string): (ok: bool)
    ensures ok ==> filename != [] && |filename| <= MaxFilenameLength
    ensures ok ==> !Contains(filename, "..") && '/' !in filename && '\\' !in filename && '\0' !in filename
    ensures ok ==> forall i | 0 <= i < |filename| :: !IsControl(filename[i])
    ensures ok ==> Extension(filename) !in DangerousExtensions
    ensures !ok ==> (filename == [] || |filename| > MaxFilenameLength || Contains(filename, "..") ||
                     '/' in filename || '\\' in filename || '\0' in filename ||
                     Extension(filename) in DangerousExtensions ||
                     exists i | 0 <= i < |filename| :: IsControl(filename[i]))
  {
    if filename == [] then false
    else if Contains(filename, "..") || '/' in filename || '\\' in filename then false
    else if '\0' in filename then false
    else if Extension(filename) in DangerousExtensions then false
    else if |filename| > MaxFilenameLength then false
    else if exists i | 0 <= i < |filename| :: IsControl(filename[i]) then false
    else true
  }

  /** A dangerous extension is refused in any case mix: "setup.EXE" as well as "setup.exe". */
  lemma DangerousInAnyCase(stem: string, ext: string)
    requires '.' !in ext && Lower(ext) in DangerousExtensions
    ensures !ValidateFilename(stem + "." + ext)
  {
    var f := stem + "." + ext;
    assert f[|stem|] == '.';
    assert AfterLast(f, '.') == ext;
  }

  // ---------------------------------------------------------------------------------------
  // sanitize_input

  /** `''.join(c for c in text if ord(c) >= 32 or c in '\t\n\r')`. */
  function DropControls(text: string): (r: string)
    ensures |r| <= |text|
    ensures forall i | 0 <= i < |r| :: !IsControl(r[i])
    ensures |r| == |text| ==> r == text
    ensures (forall i | 0 <= i < |text| :: !IsControl(text[i])) ==> r == text
  {
    if text == [] then []
    else if IsControl(text[0]) then DropControls(text[1..])
    else [text[0]] + DropControls(text[1..])
  }

  /**
   * `sanitize_input`: control characters removed, cut to `max_length` when that is truthy
   * (`None` and 0 leave the length alone; a negative bound cuts from the end), then stripped.
   */
  function SanitizeInput(text: string, maxLength: Option<int>): (r: string)
    ensures |r| <= |text|
    ensures forall i | 0 <= i < |r| :: !IsControl(r[i])
    ensures r != [] ==> !IsSpace(r[0]) && !IsSpace(r[|r| - 1])
    ensures maxLength.Some? && maxLength.value > 0 ==> |r| <= maxLength.value
  {
    if text == [] then ""
    else
      var kept := DropControls(text);
      var cut := if maxLength.Some? && maxLength.value != 0 then PyPrefix(kept, maxLength.value) else kept;
      StripKeepsNoControls(kept, cut);
      Strip(cut)
  }

  /** Stripping a prefix of control-free text leaves control-free text. */
  lemma StripKeepsNoControls(kept: string, cut: string)
    requires cut <= kept && forall i | 0 <= i < |kept| :: !IsControl(kept[i])
    ensures forall i | 0 <= i < |Strip(cut)| :: !IsControl(Strip(cut)[i])
  {
    var r := Strip(cut);
    var start := |cut| - |StripStart(cut)|;
    forall i | 0 <= i < |r|
      ensures !IsControl(r[i])
    {
      assert r[i] == cut[start + i] == kept[start + i];
    }
  }

  /** Sanitising twice gives what sanitising once does, for any bound that does not count from the end. */
  lemma SanitizeIdempotent(text: string, maxLength: Option<int>)
    requires maxLength.None? || maxLength.value >= 0
    ensures SanitizeInput(SanitizeInput(text, maxLength), maxLength) == SanitizeInput(text, maxLength)
  {
    var s := SanitizeInput(text, maxLength);
    if s != [] {
      var kept := DropControls(s);
      assert kept == s;
      var cut := if maxLength.Some? && maxLength.value != 0 then PyPrefix(kept, maxLength.value) else kept;
      assert cut == s;
      StripTrimmed(s);
      assert SanitizeInput(s, maxLength) == Strip(cut);
    }
  }

  /** A text sanitising leaves as long as it was is left unchanged. */
  lemma SanitizeSameLength(text: string, maxLength: Option<int>)
    requires |SanitizeInput(text, maxLength)| == |text|
    ensures SanitizeInput(text, maxLength) == text
  {
    if text != [] {
      var kept := DropControls(text);
      var cut := if maxLength.Some? && maxLength.value != 0 then PyPrefix(kept, maxLength.value) else kept;
      var r := Strip(cut);
      assert |cut| <= |kept| <= |text|;
      assert kept == text;
      assert cut == kept;
      assert |StripStart(cut)| == |cut|;
    }
  }

  // ---------------------------------------------------------------------------------------
  // validate_watermark_text and validate_strength_parameter

  /** The messages of `validate_watermark_text`. */
  datatype TextMessage = NoTextError | EmptyText | InvalidCharacters | TextTooLong

  datatype TextVerdict = TextVerdict(valid: bool, sanitized: string, message: TextMessage)

  /** What an accepted watermark text is: 1 to 50 characters, no control character, no edge whitespace. */
  predicate CleanWatermarkText(text: string) {
    0 < |text| <= MaxWatermarkLength &&
    (forall i | 0 <= i < |text| :: !IsControl(text[i])) &&
    !IsSpace(text[0]) && !IsSpace(text[|text| - 1])
  }

  /** `validate_watermark_text` as written: the length check comes after a sanitising that truncates to 50. */
  function ValidateWatermarkText(text: string): (v: TextVerdict)
    ensures text == [] ==> v == TextVerdict(false, "", EmptyText)
    ensures v.valid <==> v.message == NoTextError
    ensures v.valid <==> text != [] && |SanitizeInput(text, Some(MaxWatermarkLength))| == |text|
    ensures v.valid ==> v.sanitized == text && 0 < |text| <= MaxWatermarkLength
    ensures v.message != TextTooLong
  {
    if text == [] then TextVerdict(false, "", EmptyText)
    else
      var sanitized := SanitizeInput(text, Some(MaxWatermarkLength));
      if |sanitized| != |text| then TextVerdict(false, sanitized, InvalidCharacters)
      else if |sanitized| > MaxWatermarkLength then TextVerdict(false, sanitized, TextTooLong)
      else
        SanitizeSameLength(text, Some(MaxWatermarkLength));
        TextVerdict(true, sanitized, NoTextError)
  }

  /** A text is accepted exactly when it is clean: sanitising has nothing to remove, cut or strip. */
  lemma WatermarkTextAccepted(text: string)
    ensures ValidateWatermarkText(text).valid <==> CleanWatermarkText(text)
  {
    if CleanWatermarkText(text) {
      var kept := DropControls(text);
      assert kept == text;
      assert PyPrefix(kept, MaxWatermarkLength) == text;
      StripTrimmed(text);
      assert SanitizeInput(text, Some(MaxWatermarkLength)) == text;
    }
    if ValidateWatermarkText(text).valid {
      var r := SanitizeInput(text, Some(MaxWatermarkLength));
      assert r == text;
    }
  }

  /** Fifty-one plain letters are reported as invalid characters, not as too long. */
  lemma OverlongTextMisreported()
    ensures ValidateWatermarkText(seq(51, _ => 'a')).message == InvalidCharacters
  {
  }

  /** The evidently intended check: sanitise without truncating, so the length check can fire. */
  function CorrectedValidateWatermarkText(text: string): (v: TextVerdict)
    ensures text == [] ==> v == TextVerdict(false, "", EmptyText)
    ensures v.valid <==> v.message == NoTextError
    ensures v.message == TextTooLong <==> text != [] && SanitizeInput(text, None) == text && |text| > MaxWatermarkLength
    ensures v.valid ==> v.sanitized == text && 0 < |text| <= MaxWatermarkLength
    ensures v.valid <==> text != [] && |SanitizeInput(text, None)| == |text| && |text| <= MaxWatermarkLength
  {
    if text == [] then TextVerdict(false, "", EmptyText)
    else
      var sanitized := SanitizeInput(text, None);
      if |sanitized| != |text| then TextVerdict(false, sanitized, InvalidCharacters)
      else
        SanitizeSameLength(text, None);
        if |sanitized| > MaxWatermarkLength then TextVerdict(false, sanitized, TextTooLong)
        else TextVerdict(true, sanitized, NoTextError)
  }

  /** The correction changes only the message: both accept exactly the same texts. */
  lemma CorrectedAcceptsTheSame(text: string)
    ensures CorrectedValidateWatermarkText(text).valid == ValidateWatermarkText(text).valid
  {
    var v, c := ValidateWatermarkText(text), CorrectedValidateWatermarkText(text);
    if text == [] {
      assert !v.valid && !c.valid;
    } else if |text| > MaxWatermarkLength {
      assert !v.valid && !c.valid;
    } else {
      BoundAboveLength(text, MaxWatermarkLength);
      assert SanitizeInput(text, Some(MaxWatermarkLength)) == SanitizeInput(text, None);
      assert v.valid <==> |SanitizeInput(text, None)| == |text|;
      assert c.valid <==> |SanitizeInput(text, None)| == |text|;
    }
  }

  /** A bound no shorter than the text cuts nothing. */
  lemma BoundAboveLength(text: string, n: int)
    requires 0 < |text| <= n
    ensures SanitizeInput(text, Some(n)) == SanitizeInput(text, None)
  {
    var kept := DropControls(text);
    assert PyPrefix(kept, n) == kept;
  }

  /** The messages of `validate_strength_parameter`. */
  datatype StrengthMessage = NoStrengthError | OutOfRange | InvalidStrength

  /**
   * `validate_strength_parameter`, given what `float(strength_str)` produced (`None` when it
   * raised): accepted with its value iff within [0.05, 0.3], otherwise (False, 0.0, message).
   */
  function ValidateStrengthParameter(parsed: Option<real>): (r: (bool, real, StrengthMessage))
    ensures r.0 <==> parsed.Some? && MinStrength <= parsed.value <= MaxStrength
    ensures r.0 ==> r.1 == parsed.value && r.2 == NoStrengthError
    ensures !r.0 ==> r.1 == 0.0
    ensures parsed.None? ==> r.2 == InvalidStrength
    ensures parsed.Some? && !r.0 ==> r.2 == OutOfRange
  {
    match parsed
    case None => (false, 0.0, InvalidStrength)
    case Some(strength) =>
      if !(MinStrength <= strength <= MaxStrength) then (false, 0.0, OutOfRange)
      else (true, strength, NoStrengthError)
  }
}
