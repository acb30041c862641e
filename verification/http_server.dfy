/** The request handling of `HTTPServer`: how the text received on a
    connection becomes the response written back (`onRead`), and how the
    query parameters become the JSON body (`execute`).

    The scan itself is an input: whether it failed, and the five printed
    floating-point numbers of each point's entry. */
module HttpServer {
  import opened Ints
  import opened StringUtils
  import opened Results

  // ---------------------------------------------------------------------
  // Responses

  /** A fixed response of the router: status line, a `Content-Length`
      header written out in the source, and the body. */
  function Canned(status: string, length: string, body: string): string {
    "HTTP/1.1 " + status + "\r\nContent-Length: " + length + "\r\n\r\n" + body
  }

  const BAD_REQUEST := Canned("400 Bad Request", "11", "Bad Request")
  const NOT_ALLOWED := Canned("405 Not Allowed", "11", "Not Allowed")
  const NOT_FOUND := Canned("404 Not Found", "9", "Not Found")

  /** The lengths written into the fixed responses are those of their
      bodies. */
  lemma CannedLengths()
    ensures DigitsValue("11", 10) == |"Bad Request"| == |"Not Allowed"|
    ensures DigitsValue("9", 10) == |"Not Found"|
  {
    assert "11"[..1] == "1" && "1"[..0] == "";
  }

  /** The head of the 200 response up to the length value. */
  const OK_HEAD := "HTTP/1.1 200 OK\r\n" + "Connection: close\r\n" +
                   "Content-Type: application/json\r\n" + "Content-Length: "
  const BLANK_LINE := "\r\n\r\n"
  const OK_TEMPLATE := OK_HEAD + "{}" + (BLANK_LINE + "{}" + "")

  /** The 200 response around a JSON body: the body's length in decimal,
      a blank line, then the body. */
  function OkResponse(json: string): (r: string)
    ensures r == OK_HEAD + Dec(|json|) + BLANK_LINE + json
  {
    assert '}' !in OK_HEAD && '}' !in BLANK_LINE;
    FormatTwo(OK_HEAD, BLANK_LINE, Dec(|json|), json);
    Format(OK_TEMPLATE, [Dec(|json|), json])
  }

  /** The `Content-Length` of a 200 response reads back, with `atou`, as
      the length of what follows the blank line. */
  lemma ContentLength(json: string)
    requires |json| < TWO_64
    ensures var r := OkResponse(json);
      var n := |OK_HEAD| + |Dec(|json|)|;
      && r[..|OK_HEAD|] == OK_HEAD
      && Atou(r[|OK_HEAD|..n], W64) == Parsed(|json|, false)
      && r[n..n + |BLANK_LINE|] == BLANK_LINE
      && r[n + |BLANK_LINE|..] == json
  {
    var r := OkResponse(json);
    var d := Dec(|json|);
    var n := |OK_HEAD| + |d|;
    assert r == OK_HEAD + d + BLANK_LINE + json;
    assert r[|OK_HEAD|..n] == d;
    AtouDec(|json|);
  }

  // ---------------------------------------------------------------------
  // Routing

  /** What `onRead` decides from the request before any parameter is
      looked at. */
  datatype Routed = BadRequest | NotAllowed | NotFound | Query(text: string)

  /** The routing part of `onRead`: lines split on `\r` and trimmed; the
      first line split on spaces and trimmed must have a method `GET` and a
      target; the target's path before the first `?` must be `/litevna`,
      and the text between the first and the second `?` is the query. */
  function Route(received: string): (r: Routed)
    ensures |received| == 0 ==> r == BadRequest
    ensures r.Query? ==> '?' !in r.text
  {
    var lines := Split(received, '\r', true);
    if |lines| < 1 then BadRequest
    else
      var request := Split(lines[0], ' ', true);
      if |request| < 2 || request[0] != "GET" then NotAllowed
      else
        var url := Split(request[1], '?', false);
        if |url| < 1 || url[0] != "/litevna" then NotFound
        else if |url| < 2 then BadRequest
        else Query(url[1])
  }

  /** A request token: not empty, and no character `trim` would remove, so
      in particular no space and no `\r`. */
  predicate Word(s: string) {
    |s| > 0 && forall i | 0 <= i < |s| :: !IsBlank(s[i], true)
  }

  /** A request line `method target version` followed by `\r`: the method
      must be `GET`, the target's path `/litevna`, and a query must
      follow. */
  lemma RouteRequestLine(m: string, t: string, v: string, rest: string)
    requires Word(m) && Word(t) && Word(v)
    ensures Route(m + " " + t + " " + v + "\r" + rest) ==
      if m != "GET" then NotAllowed
      else if Pieces(t, '?')[0] != "/litevna" then NotFound
      else if |Pieces(t, '?')| < 2 then BadRequest
      else Query(Pieces(t, '?')[1])
  {
    var line := m + " " + t + " " + v;
    var received := line + "\r" + rest;
    RequestTokens(m, t, v);
    FirstLine(line, rest);
    var lines := Split(received, '\r', true);
    assert |lines| >= 1 && lines[0] == line;
    var request := Split(lines[0], ' ', true);
    assert request == [m, t, v];
    var url := Split(t, '?', false);
    assert url == Pieces(t, '?');
    RouteUrl(received, t, url);
  }

  /** The routing decision once the first line is known to be `GET t ...`. */
  lemma RouteUrl(received: string, t: string, url: seq<string>)
    requires |Split(received, '\r', true)| >= 1
    requires var request := Split(Split(received, '\r', true)[0], ' ', true);
      |request| >= 2 && request[1] == t
    requires url == Split(t, '?', false)
    ensures var request := Split(Split(received, '\r', true)[0], ' ', true);
      request[0] == "GET" ==>
      Route(received) == if url[0] != "/litevna" then NotFound else if |url| < 2 then BadRequest else Query(url[1])
    ensures var request := Split(Split(received, '\r', true)[0], ' ', true);
      request[0] != "GET" ==> Route(received) == NotAllowed
  {
  }

  /** The first line of a request is its text up to the first `\r`, kept
      as it is when its ends are not blank. */
  lemma FirstLine(line: string, rest: string)
    requires |line| > 0 && !IsBlank(line[0], true) && !IsBlank(line[|line| - 1], true)
    requires '\r' !in line
    ensures Split(line + "\r" + rest, '\r', true)[0] == line
  {
    var s := line + "\r" + rest;
    assert forall k | 0 <= k < |line| :: s[k] == line[k] && line[k] in line;
    assert s[|line|] == '\r';
    assert FindChar(s, '\r', 0) == |line|;
    assert s[..|line|] == line;
    assert Pieces(s, '\r')[0] == line;
    TrimKeeps(line, true);
  }

  /** Three words separated by single spaces split into those words. */
  lemma RequestTokens(m: string, t: string, v: string)
    requires Word(m) && Word(t) && Word(v)
    ensures var line := m + " " + t + " " + v;
      && |line| > 0 && !IsBlank(line[0], true) && !IsBlank(line[|line| - 1], true)
      && '\r' !in line
      && Split(line, ' ', true) == [m, t, v]
  {
    var line := m + " " + t + " " + v;
    assert line[0] == m[0] && line[|line| - 1] == v[|v| - 1];
    WordHasNo(m, ' ');
    WordHasNo(t, ' ');
    WordHasNo(v, ' ');
    WordHasNo(m, '\r');
    WordHasNo(t, '\r');
    WordHasNo(v, '\r');
    JoinThree(m, t, v);
    SplitsAtUnique(line, ' ', [m, t, v]);
    TrimKeeps(m, true);
    TrimKeeps(t, true);
    TrimKeeps(v, true);
  }

  /** A word holds no blank character. */
  lemma WordHasNo(w: string, c: char)
    requires Word(w) && IsBlank(c, true)
    ensures c !in w
  {
    assert forall i | 0 <= i < |w| :: w[i] != c;
  }

  /** Three words joined by single spaces. */
  lemma JoinThree(m: string, t: string, v: string)
    ensures Join([m, t, v], ' ') == m + " " + t + " " + v
  {
    assert [m, t, v][1..] == [t, v];
    assert [t, v][1..] == [v];
    assert Join([v], ' ') == v;
    assert Join([t, v], ' ') == t + [' '] + v;
    assert Join([m, t, v], ' ') == m + [' '] + (t + [' '] + v);
    assert " " == [' '];
  }

  /** The route of the one request the server answers with data. */
  lemma RouteLitevna(q: string, v: string, rest: string)
    requires Word(q) && Word(v) && '?' !in q
    ensures Route("GET " + "/litevna?" + q + " " + v + "\r" + rest) == Query(q)
  {
    var t := "/litevna?" + q;
    LitevnaTarget(q);
    RouteRequestLine("GET", t, v, rest);
    assert "GET" + " " == "GET ";
    assert "GET " + "/litevna?" + q == "GET " + t;
  }

  /** The target `/litevna?q` is a word whose pieces at `?` are the path
      and q. */
  lemma LitevnaTarget(q: string)
    requires Word(q) && '?' !in q
    ensures Word("/litevna?" + q)
    ensures Pieces("/litevna?" + q, '?') == ["/litevna", q]
  {
    LitevnaWord(q);
    LitevnaPieces(q);
  }

  lemma LitevnaWord(q: string)
    requires Word(q)
    ensures Word("/litevna?" + q)
  {
    var t := "/litevna?" + q;
    forall i | 0 <= i < |t|
      ensures !IsBlank(t[i], true)
    {
      if i >= 9 {
        assert t[i] == q[i - 9];
      } else {
        assert t[i] == "/litevna?"[i];
        CodeSmall(t[i]);
      }
    }
  }

  lemma LitevnaPieces(q: string)
    requires '?' !in q
    ensures Pieces("/litevna?" + q, '?') == ["/litevna", q]
  {
    var t := "/litevna?" + q;
    assert Join(["/litevna", q], '?') == t by {
      assert ["/litevna", q][1..] == [q];
      assert Join([q], '?') == q;
    }
    assert '?' !in "/litevna";
    SplitsAtUnique(t, '?', ["/litevna", q]);
  }


  // ---------------------------------------------------------------------
  // Query parameters

  /** A query piece is kept when it splits on `=` into exactly two parts. */
  predicate Binds(piece: string) {
    |Split(piece, '=', false)| == 2
  }

  function Key(piece: string): string
    requires Binds(piece)
  {
    Split(piece, '=', false)[0]
  }

  function Value(piece: string): string
    requires Binds(piece)
  {
    Split(piece, '=', false)[1]
  }

  /** A kept piece is one with exactly one `=`: the key is what precedes
      it and the value what follows it. */
  lemma BindsOneEquals(piece: string)
    ensures Binds(piece) <==> CountChar(piece, '=') == 1
    ensures Binds(piece) ==> piece == Key(piece) + "=" + Value(piece) && '=' !in Key(piece) && '=' !in Value(piece)
  {
    if Binds(piece) {
      var kv := Split(piece, '=', false);
      assert kv[1..] == [kv[1]];
    }
  }

  /** The map the parameter loop of `onRead` builds: pieces in order, each
      kept piece inserted with `emplace`, which leaves an existing key
      alone. */
  function Params(pieces: seq<string>): map<string, string>
    decreases |pieces|
  {
    if |pieces| == 0 then map[]
    else
      var m := Params(pieces[..|pieces| - 1]);
      var p := pieces[|pieces| - 1];
      if Binds(p) && Key(p) !in m then m[Key(p) := Value(p)] else m
  }

  datatype Lookup = Absent | Bound(value: string)

  /** Piece p is kept and binds the key. */
  predicate BindsKey(p: string, key: string) {
    Binds(p) && Key(p) == key
  }

  /** The value the first kept piece with the key gives it. */
  function FirstBinding(pieces: seq<string>, key: string): (r: Lookup)
    ensures r.Absent? <==> forall i | 0 <= i < |pieces| :: !BindsKey(pieces[i], key)
    ensures r.Bound? ==> exists i | 0 <= i < |pieces| ::
      && BindsKey(pieces[i], key) && Value(pieces[i]) == r.value
      && forall j | 0 <= j < i :: !BindsKey(pieces[j], key)
    decreases |pieces|
  {
    if |pieces| == 0 then Absent
    else if BindsKey(pieces[0], key) then Bound(Value(pieces[0]))
    else
      var r := FirstBinding(pieces[1..], key);
      FirstBindingCons(pieces, key, r);
      r
  }

  /** A first piece that does not bind the key changes nothing. */
  lemma FirstBindingCons(pieces: seq<string>, key: string, r: Lookup)
    requires |pieces| > 0 && !BindsKey(pieces[0], key)
    requires r.Absent? <==> forall i | 0 <= i < |pieces[1..]| :: !BindsKey(pieces[1..][i], key)
    requires r.Bound? ==> exists i | 0 <= i < |pieces[1..]| ::
      && BindsKey(pieces[1..][i], key) && Value(pieces[1..][i]) == r.value
      && forall j | 0 <= j < i :: !BindsKey(pieces[1..][j], key)
    ensures r.Absent? <==> forall i | 0 <= i < |pieces| :: !BindsKey(pieces[i], key)
    ensures r.Bound? ==> exists i | 0 <= i < |pieces| ::
      && BindsKey(pieces[i], key) && Value(pieces[i]) == r.value
      && forall j | 0 <= j < i :: !BindsKey(pieces[j], key)
  {
    assert forall i | 1 <= i < |pieces| :: pieces[i] == pieces[1..][i - 1];
    if r.Bound? {
      var i :| 0 <= i < |pieces[1..]| && BindsKey(pieces[1..][i], key) && Value(pieces[1..][i]) == r.value &&
        forall j | 0 <= j < i :: !BindsKey(pieces[1..][j], key);
      assert pieces[i + 1] == pieces[1..][i];
      assert forall j | 1 <= j < i + 1 :: pieces[j] == pieces[1..][j - 1];
    }
  }

  lemma {:induction false} FirstBindingSnoc(pieces: seq<string>, p: string, key: string)
    ensures FirstBinding(pieces + [p], key) ==
      if FirstBinding(pieces, key).Bound? then FirstBinding(pieces, key)
      else if Binds(p) && Key(p) == key then Bound(Value(p))
      else Absent
    decreases |pieces|
  {
    if |pieces| == 0 {
      assert [] + [p] == [p];
      assert [p][1..] == [];
    } else {
      assert (pieces + [p])[0] == pieces[0];
      assert (pieces + [p])[1..] == pieces[1..] + [p];
      FirstBindingSnoc(pieces[1..], p, key);
    }
  }

  /** For a duplicated key the first occurrence wins: the map holds a key
      exactly when some piece binds it, with the value of the first such
      piece. */
  lemma {:induction false} ParamsFirst(pieces: seq<string>, key: string)
    ensures key in Params(pieces) <==> FirstBinding(pieces, key).Bound?
    ensures key in Params(pieces) ==> Params(pieces)[key] == FirstBinding(pieces, key).value
    decreases |pieces|
  {
    if |pieces| > 0 {
      var front := pieces[..|pieces| - 1];
      var p := pieces[|pieces| - 1];
      var m := Params(front);
      var fb := FirstBinding(front, key);
      assert Params(pieces) == if Binds(p) && Key(p) !in m then m[Key(p) := Value(p)] else m by {
        assert pieces[..|pieces| - 1] == front;
      }
      assert FirstBinding(pieces, key) ==
        if fb.Bound? then fb else if Binds(p) && Key(p) == key then Bound(Value(p)) else Absent by {
        assert pieces == front + [p];
        FirstBindingSnoc(front, p, key);
      }
      ParamsFirst(front, key);
    }
  }

  // ---------------------------------------------------------------------
  // execute

  /** The outcome of looking up and parsing one parameter. */
  datatype Check = Missing | Invalid | Valid(value: nat)

  /** A parameter is missing when absent, invalid when `atou` at the given
      width reports an error or gives 0, and otherwise valid. */
  function CheckParam(params: map<string, string>, name: string, w: Width): (c: Check)
    ensures c == Missing <==> name !in params
    ensures c.Valid? <==> name in params && 0 < |params[name]| <= 20 && AllDigits(params[name]) &&
                          DigitsValue(params[name], 10) % Modulus(w) != 0
    ensures c.Valid? ==> c.value == DigitsValue(params[name], 10) % Modulus(w)
  {
    if name !in params then Missing
    else
      var p := Atou(params[name], w);
      if p.error || p.value == 0 then Invalid else Valid(p.value)
  }

  /** `points` is a 16-bit value: 65536 reads as 0 and is rejected, 65537
      reads as 1. */
  lemma PointsWrap()
    ensures CheckParam(map["points" := "65536"], "points", W16) == Invalid
    ensures CheckParam(map["points" := "65537"], "points", W16) == Valid(1)
  {
    PointsDigits("65536", 65536);
    PointsDigits("65537", 65537);
  }

  lemma PointsDigits(s: string, n: nat)
    requires |s| == 5 && s[..4] == "6553" && IsDigit(s[4]) && n == 65530 + CharValue(s[4])
    ensures DigitsValue(s, 10) == n && AllDigits(s)
  {
    var t := s[..4];
    assert t[..3] == "655" && "655"[..2] == "65" && "65"[..1] == "6" && "6"[..0] == "";
    assert DigitsValue(t, 10) == 6553;
    assert forall i | 0 <= i < 4 :: s[i] == t[i];
  }

  const ERROR_OPEN := "{\"error\": \""
  const ERROR_CLOSE := "\"}"

  /** A JSON object with a single `error` member. */
  function ErrorBody(message: string): string {
    ERROR_OPEN + message + ERROR_CLOSE
  }

  function MissingBody(name: string): string {
    ErrorBody("missing '" + name + "' parameter")
  }

  function InvalidBody(name: string): string {
    ErrorBody("invalid '" + name + "' parameter")
  }

  /** The body for a parameter that did not pass. */
  function Rejection(name: string, c: Check): string {
    if c.Missing? then MissingBody(name) else InvalidBody(name)
  }

  /** The scan failure body as the source writes it: the template
      `"{error": "{}"}` has its brace after the opening quote. */
  function ScanErrorBodyAsWritten(description: string): (r: string)
    ensures r == "\"{error\": \"" + description + ERROR_CLOSE
  {
    var pre := "\"{error\": \"";
    assert NoHole(pre);
    FormatHole(pre, ERROR_CLOSE, description, []);
    assert [description] + [] == [description];
    assert Format(ERROR_CLOSE, []) == ERROR_CLOSE;
    Format(pre + "{}" + ERROR_CLOSE, [description])
  }

  /** The body as written is not a JSON object: it starts with a string,
      whatever the description, unlike every other body `execute`
      returns. */
  lemma ScanErrorBodyNotObject(description: string)
    ensures ScanErrorBodyAsWritten(description)[0] == '"'
    ensures ScanErrorBodyAsWritten(description)[..2] == "\"{"
    ensures ErrorBody(description)[0] == '{'
    ensures ScanErrorBodyAsWritten(description) != ErrorBody(description)
  {
  }

  /** The scan failure body as evidently intended: the same object shape
      as the parameter errors, its message the scan's description. */
  function ScanErrorBody(description: string): (r: string)
    ensures r == ErrorBody(description)
    ensures r[..|ERROR_OPEN|] == ERROR_OPEN && r[|ERROR_OPEN|..|r| - 2] == description
  {
    ERROR_OPEN + description + ERROR_CLOSE
  }

  /** What `scan` reported: its result and, per point, the five printed
      numbers of the entry (log magnitude, phase and SWR of s11, log
      magnitude and phase of s21). */
  datatype ScanReply = ScanReply(result: Result, measures: seq<seq<string>>)

  /** The call `execute` made to `scan`, if any. */
  datatype ScanCall = NoScan | ScanOf(start: nat, step: nat, points: nat)

  datatype Executed = Executed(json: string, call: ScanCall)

  /** The frequency of point n: `start` plus n steps in 64-bit unsigned
      arithmetic. */
  function Freq(start: nat, step: nat, n: nat): (f: nat)
    ensures f < TWO_64
  {
    (start + n * step) % TWO_64
  }

  /** Adding a step to a wrapped frequency is the next frequency. */
  lemma FreqStep(start: nat, step: nat, n: nat)
    ensures (Freq(start, step, n) + step) % TWO_64 == Freq(start, step, n + 1)
  {
    var a := start + n * step;
    DivModDef(a, TWO_64);
    var q := a / TWO_64;
    DivModDef(a % TWO_64 + step, TWO_64);
    var q' := (a % TWO_64 + step) / TWO_64;
    assert a + step == TWO_64 * (q + q') + (a % TWO_64 + step) % TWO_64;
    DivModUnique(a + step, TWO_64, q + q', (a % TWO_64 + step) % TWO_64);
    assert start + (n + 1) * step == a + step;
  }

  const ENTRY_OPEN := "{\"freq\": "
  const ENTRY_REST := ", \"s11\": {\"log_mag\": {}, \"phase\": {}, \"swr\": {}}," +
                      "\"s21\": {\"log_mag\": {}, \"phase\": {}}}"

  /** The printed numbers of point n; `scan` always fills every point. */
  function MeasureAt(measures: seq<seq<string>>, n: nat): seq<string> {
    if n < |measures| then measures[n] else []
  }

  /** One entry of the result array: its frequency first, in decimal, then
      the printed measurements in the places the template leaves for them. */
  function Entry(freq: nat, measure: seq<string>): string {
    ENTRY_OPEN + Dec(freq) + Format(ENTRY_REST, measure)
  }

  /** An entry is the whole entry template formatted with the frequency
      followed by the measurements, as `execute` does it. */
  lemma EntryTemplate(freq: nat, measure: seq<string>)
    ensures Entry(freq, measure) == Format(ENTRY_OPEN + "{}" + ENTRY_REST, [Dec(freq)] + measure)
  {
    assert NoHole(ENTRY_OPEN);
    FormatHole(ENTRY_OPEN, ENTRY_REST, Dec(freq), measure);
  }

  /** The entry loop of `execute` from point n on, with `freq` the running
      64-bit frequency. */
  function EntriesFrom(start: nat, step: nat, points: nat, n: nat, freq: nat, measures: seq<seq<string>>): (r: seq<string>)
    requires n <= points && freq == Freq(start, step, n)
    ensures |r| == points - n
    ensures forall k | 0 <= k < |r| :: r[k] == Entry(Freq(start, step, n + k), MeasureAt(measures, n + k))
    decreases points - n
  {
    if n == points then []
    else
      FreqStep(start, step, n);
      var rest := EntriesFrom(start, step, points, n + 1, (freq + step) % TWO_64, measures);
      var head := Entry(freq, MeasureAt(measures, n));
      EntriesCons(start, step, n, measures, head, rest);
      [head] + rest
  }

  /** The entry of point n in front of the entries from point n + 1 on. */
  lemma EntriesCons(start: nat, step: nat, n: nat, measures: seq<seq<string>>, head: string, rest: seq<string>)
    requires head == Entry(Freq(start, step, n), MeasureAt(measures, n))
    requires forall k | 0 <= k < |rest| :: rest[k] == Entry(Freq(start, step, n + 1 + k), MeasureAt(measures, n + 1 + k))
    ensures forall k | 0 <= k < |[head] + rest| ::
      ([head] + rest)[k] == Entry(Freq(start, step, n + k), MeasureAt(measures, n + k))
  {
    var r := [head] + rest;
    forall k | 0 <= k < |r|
      ensures r[k] == Entry(Freq(start, step, n + k), MeasureAt(measures, n + k))
    {
      if k > 0 {
        assert r[k] == rest[k - 1];
        assert n + 1 + (k - 1) == n + k;
      }
    }
  }

  /** The success body: `points` entries separated by commas inside
      `{"result":[` and `]}`. */
  function ResultBody(start: nat, step: nat, points: nat, measures: seq<seq<string>>): string
    requires start < TWO_64
  {
    DivModUnique(start, TWO_64, 0, start);
    "{\"result\":[" + Join(EntriesFrom(start, step, points, 0, start, measures), ',') + "]}"
  }

  /** `execute`: start, step and points are checked in this order and the
      first that does not pass decides the body; only when all three pass
      is `scan` called, and its failure or its points make the body. */
  function Execute(params: map<string, string>, reply: ScanReply): (e: Executed)
    ensures var c := CheckParam(params, "start", W64);
      !c.Valid? ==> e == Executed(Rejection("start", c), NoScan)
    ensures var c := CheckParam(params, "start", W64); var d := CheckParam(params, "step", W64);
      c.Valid? && !d.Valid? ==> e == Executed(Rejection("step", d), NoScan)
    ensures var c := CheckParam(params, "start", W64); var d := CheckParam(params, "step", W64);
      var p := CheckParam(params, "points", W16);
      c.Valid? && d.Valid? && !p.Valid? ==> e == Executed(Rejection("points", p), NoScan)
    ensures e.call.ScanOf? <==>
      CheckParam(params, "start", W64).Valid? && CheckParam(params, "step", W64).Valid? &&
      CheckParam(params, "points", W16).Valid?
    ensures e.call.ScanOf? ==>
      && e.call.start == CheckParam(params, "start", W64).value
      && e.call.step == CheckParam(params, "step", W64).value
      && e.call.points == CheckParam(params, "points", W16).value
      && 0 < e.call.start < TWO_64 && 0 < e.call.step < TWO_64 && 0 < e.call.points < TWO_16
    ensures e.call.ScanOf? && IsError(reply.result) ==> e.json == ScanErrorBodyAsWritten(reply.result.description)
    ensures e.call.ScanOf? && !IsError(reply.result) ==>
      e.json == ResultBody(e.call.start, e.call.step, e.call.points, reply.measures)
  {
    var start := CheckParam(params, "start", W64);
    if !start.Valid? then Executed(Rejection("start", start), NoScan)
    else
      var step := CheckParam(params, "step", W64);
      if !step.Valid? then Executed(Rejection("step", step), NoScan)
      else
        var points := CheckParam(params, "points", W16);
        if !points.Valid? then Executed(Rejection("points", points), NoScan)
        else
          var call := ScanOf(start.value, step.value, points.value);
          if IsError(reply.result) then Executed(ScanErrorBodyAsWritten(reply.result.description), call)
          else Executed(ResultBody(start.value, step.value, points.value, reply.measures), call)
  }

  /** The success body lists exactly `points` entries, entry n for
      frequency start + n·step wrapped to 64 bits. */
  lemma ResultEntries(start: nat, step: nat, points: nat, measures: seq<seq<string>>)
    requires start < TWO_64
    ensures exists entries: seq<string> ::
      && |entries| == points
      && ResultBody(start, step, points, measures) == "{\"result\":[" + Join(entries, ',') + "]}"
      && forall n | 0 <= n < points :: entries[n] == Entry(Freq(start, step, n), MeasureAt(measures, n))
  {
    DivModUnique(start, TWO_64, 0, start);
    var entries := EntriesFrom(start, step, points, 0, start, measures);
    forall n | 0 <= n < points
      ensures entries[n] == Entry(Freq(start, step, n), MeasureAt(measures, n))
    {
      assert entries[n] == Entry(Freq(start, step, 0 + n), MeasureAt(measures, 0 + n));
    }
    assert ResultBody(start, step, points, measures) == "{\"result\":[" + Join(entries, ',') + "]}";
  }

  // ---------------------------------------------------------------------
  // onRead

  datatype Response = Response(text: string, call: ScanCall)

  /** `onRead` after the text is received: the fixed responses of the
      router, or a 200 response around the body `execute` produced from
      the parameters of the query. */
  function Respond(received: string, reply: ScanReply): (r: Response)
    ensures Route(received) == BadRequest ==> r == Response(BAD_REQUEST, NoScan)
    ensures Route(received) == NotAllowed ==> r == Response(NOT_ALLOWED, NoScan)
    ensures Route(received) == NotFound ==> r == Response(NOT_FOUND, NoScan)
    ensures Route(received).Query? ==>
      var e := Execute(Params(Split(Route(received).text, '&', false)), reply);
      r == Response(OkResponse(e.json), e.call)
    ensures r.call.ScanOf? ==> Route(received).Query?
  {
    match Route(received)
    case BadRequest => Response(BAD_REQUEST, NoScan)
    case NotAllowed => Response(NOT_ALLOWED, NoScan)
    case NotFound => Response(NOT_FOUND, NoScan)
    case Query(q) =>
      var e := Execute(Params(Split(q, '&', false)), reply);
      Response(OkResponse(e.json), e.call)
  }

  /** A parameter is seen by `execute` with the value of its first
      occurrence in the query. */
  lemma RespondSeesFirst(q: string, key: string)
    ensures var pieces := Split(q, '&', false);
      (key in Params(pieces) <==> FirstBinding(pieces, key).Bound?) &&
      (key in Params(pieces) ==> Params(pieces)[key] == FirstBinding(pieces, key).value)
  {
    ParamsFirst(Split(q, '&', false), key);
  }
}
