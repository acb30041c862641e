/** The sequential parts of `Logger`: the category bitmask that the
    `LOGGER` macro tests, the category descriptions, and the message queue
    that `_print` fills at the front and `flush` empties from the back.
    Threads, the clock and the output chain are left out: the time stamp
    is a parameter and the chain is the list of delivered lines. */
module Logger {
  import opened Ints
  import opened StringUtils
  import opened FileUtils

  /** A `uint64_t` category mask, as the set of its bit positions (each
      below 64): `|` is union, `& ~` is difference, and `&` compared with
      zero is the question whether the intersection is empty. */
  type Mask = m: set<nat> | forall b | b in m :: b < 64

  /** `(uint64_t)-1`: every bit. */
  const CATEGORY_ALL: Mask := set k | 0 <= k < 64
  const CATEGORY_ERROR: Mask := {0}
  const CATEGORY_INFO: Mask := {1}
  const CATEGORY_DEBUG: Mask := {2}
  /** Added by the server's own logger set-up. */
  const CATEGORY_LITE_VNA: Mask := {3}
  const CATEGORY_HTTP_SERVER: Mask := {4}

  /** `_print` drops a message once the queue holds more than this many. */
  const QUEUE_LIMIT: nat := 100000

  /** The name `getFileName(__FILE__)` gives inside Logger.h. */
  const LOGGER_SOURCE := "Logger.h"

  /** The static settings (categories, descriptions, source visibility)
      together with the one instance's commit delay and queue. The queue's
      front is index 0; `delivered` is every line handed to the chain of
      output loggers, in order. */
  datatype LoggerState = LoggerState(
    categories: Mask,
    descriptions: map<Mask, string>,
    sourceVisible: bool,
    commitDelayMs: nat,
    queue: seq<string>,
    delivered: seq<string>)

  /** The initial values of the statics and of a fresh instance. */
  function Initial(): (s: LoggerState)
    ensures HasCategory(s, CATEGORY_ERROR) && HasCategory(s, CATEGORY_INFO)
    ensures !HasCategory(s, CATEGORY_DEBUG)
    ensures GetDescription(s, CATEGORY_DEBUG) == "debug"
    ensures s.queue == [] && s.delivered == []
  {
    LoggerState(CATEGORY_ERROR + CATEGORY_INFO,
                map[CATEGORY_ERROR := "error", CATEGORY_INFO := "info", CATEGORY_DEBUG := "debug"],
                false, 0, [], [])
  }

  // ---------------------------------------------------------------------
  // categories

  /** `hasCategory`: some bit of the category is enabled. */
  predicate HasCategory(s: LoggerState, category: Mask) {
    s.categories * category != {}
  }

  /** `setCategories`: the mask is replaced. */
  function SetCategories(s: LoggerState, categories: Mask): (r: LoggerState)
    ensures r.categories == categories
    ensures r.descriptions == s.descriptions && r.queue == s.queue && r.delivered == s.delivered
  {
    s.(categories := categories)
  }

  /** `clearAllCategories`: nothing is logged afterwards. */
  function ClearAllCategories(s: LoggerState): (r: LoggerState)
    ensures forall c: Mask :: !HasCategory(r, c)
    ensures r.descriptions == s.descriptions && r.queue == s.queue && r.delivered == s.delivered
  {
    s.(categories := {})
  }

  /** `setCategory(category, showMessage)`: the bits are added, the others
      kept; with `showMessage` an info line naming the category is logged,
      through the now updated mask. */
  function SetCategory(s: LoggerState, category: Mask, showMessage: bool, stamp: string): (r: LoggerState)
    ensures forall k :: k in r.categories <==> k in s.categories || k in category
    ensures category != {} ==> HasCategory(r, category)
    ensures r.descriptions == s.descriptions && r.commitDelayMs == s.commitDelayMs
    ensures !showMessage ==> r.queue == s.queue && r.delivered == s.delivered
  {
    var t := s.(categories := s.categories + category);
    if showMessage then
      var m := SettingMessage(GetDescription(t, category));
      Log(t, CATEGORY_INFO, LOGGER_SOURCE, 62, m, stamp)
    else t
  }

  /** `resetCategory(category, showMessage)`: the bits are removed, the
      others kept; the info line goes out only if info is still enabled. */
  function ResetCategory(s: LoggerState, category: Mask, showMessage: bool, stamp: string): (r: LoggerState)
    ensures forall k :: k in r.categories <==> k in s.categories && k !in category
    ensures !HasCategory(r, category)
    ensures r.descriptions == s.descriptions && r.commitDelayMs == s.commitDelayMs
    ensures !showMessage ==> r.queue == s.queue && r.delivered == s.delivered
  {
    var t := s.(categories := s.categories - category);
    if showMessage then
      var m := ResettingMessage(GetDescription(t, category));
      Log(t, CATEGORY_INFO, LOGGER_SOURCE, 70, m, stamp)
    else t
  }

  /** Setting and then resetting a category leaves it off and every other
      bit as it was. */
  lemma SetThenReset(s: LoggerState, category: Mask, stamp: string)
    ensures ResetCategory(SetCategory(s, category, false, stamp), category, false, stamp).categories
      == s.categories - category
  {
    var r := ResetCategory(SetCategory(s, category, false, stamp), category, false, stamp);
    assert forall k :: k in r.categories <==> k in s.categories - category;
  }

  /** A category with no bit in common with the reset one keeps its state,
      whatever the logged message does. */
  lemma ResetKeepsOthers(s: LoggerState, category: Mask, other: Mask, showMessage: bool, stamp: string)
    requires other * category == {}
    ensures HasCategory(ResetCategory(s, category, showMessage, stamp), other) <==> HasCategory(s, other)
  {
    var r := ResetCategory(s, category, showMessage, stamp);
    if HasCategory(s, other) {
      var k :| k in s.categories * other;
      assert k !in category by {
        assert k in category ==> k in other * category;
      }
      assert k in r.categories * other;
    }
    if HasCategory(r, other) {
      var k :| k in r.categories * other;
      assert k in s.categories * other;
    }
  }

  const SETTING_TEMPLATE := "Setting logger_category=`" + "{}" + "`"
  const RESETTING_TEMPLATE := "Resetting logger_category=`" + "{}" + "`"

  function SettingMessage(description: string): (m: string)
    ensures m == "Setting logger_category=`" + description + "`"
  {
    FormatOne("Setting logger_category=`", "`", description);
    Format(SETTING_TEMPLATE, [description])
  }

  function ResettingMessage(description: string): (m: string)
    ensures m == "Resetting logger_category=`" + description + "`"
  {
    FormatOne("Resetting logger_category=`", "`", description);
    Format(RESETTING_TEMPLATE, [description])
  }

  // ---------------------------------------------------------------------
  // descriptions

  /** `getDescription`: the registered name, or empty. */
  function GetDescription(s: LoggerState, category: Mask): (d: string)
    ensures category !in s.descriptions ==> d == ""
    ensures category in s.descriptions ==> d == s.descriptions[category]
  {
    if category in s.descriptions then s.descriptions[category] else ""
  }

  /** `addDescription` uses `emplace`: a category that already has a
      description keeps it. */
  function AddDescription(s: LoggerState, category: Mask, description: string): (r: LoggerState)
    ensures category in r.descriptions
    ensures GetDescription(r, category) == if category in s.descriptions then GetDescription(s, category) else description
    ensures forall c | c != category :: GetDescription(r, c) == GetDescription(s, c)
    ensures r.categories == s.categories && r.queue == s.queue && r.delivered == s.delivered
  {
    if category in s.descriptions then s
    else s.(descriptions := s.descriptions[category := description])
  }

  /** The first description added for a category is the one it keeps. */
  lemma FirstDescriptionWins(s: LoggerState, category: Mask, d1: string, d2: string)
    requires category !in s.descriptions
    ensures GetDescription(AddDescription(AddDescription(s, category, d1), category, d2), category) == d1
  {
  }

  /** A single-bit category is enabled exactly when its bit is set. */
  lemma HasBit(s: LoggerState, n: nat)
    requires n < 64
    ensures HasCategory(s, {n}) <==> n in s.categories
  {
    if n in s.categories {
      assert n in s.categories * {n};
    }
  }

  /** Bit n is named by `describeCategories`: below 63, enabled, and with a
      non-empty description. */
  predicate Shown(s: LoggerState, n: nat) {
    n < 63 && n in s.categories && |GetDescription(s, {n})| > 0
  }

  /** The descriptions `describeCategories` lists, from bit n on, in bit
      order. */
  function Listed(s: LoggerState, n: nat): (r: seq<string>)
    requires n <= 63
    ensures |r| <= 63 - n
    ensures forall i | 0 <= i < |r| :: |r[i]| > 0
    ensures forall d :: d in r <==> exists k | n <= k < 63 :: Shown(s, k) && GetDescription(s, {k}) == d
    decreases 63 - n
  {
    if n == 63 then []
    else
      var rest := Listed(s, n + 1);
      if Shown(s, n) then [GetDescription(s, {n})] + rest else rest
  }

  /** `describeCategories`: the loop over bits 0..62 that joins the shown
      descriptions with commas. */
  method DescribeCategories(s: LoggerState) returns (ret: string)
    ensures ret == Join(Listed(s, 0), ',')
  {
    ret := "";
    var comma := "";
    ghost var done: seq<string> := [];
    var n := 0;
    while n < 63
      invariant n <= 63
      invariant Listed(s, 0) == done + Listed(s, n)
      invariant ret == Join(done, ',')
      invariant comma == if |done| == 0 then "" else ","
    {
      var category := {n};
      HasBit(s, n);
      if HasCategory(s, category) && |GetDescription(s, category)| > 0 {
        var d := GetDescription(s, category);
        ghost var done0 := done;
        var ret0, comma0 := ret, comma;
        ret := ret + comma + d;
        comma := ",";
        done := done + [d];
        DescribeRound(s, n, d, done0, ret0, comma0, done, ret);
      } else {
        DescribeSkip(s, n, done);
      }
      n := n + 1;
    }
    DescribeEnd(s, done);
  }

  /** One shown bit: its description joins the list after a comma, or
      without one when it is the first. */
  lemma DescribeRound(s: LoggerState, n: nat, d: string, done0: seq<string>, ret0: string, comma0: string,
                      done: seq<string>, ret: string)
    requires n < 63 && n in s.categories && d == GetDescription(s, {n}) && |d| > 0
    requires Listed(s, 0) == done0 + Listed(s, n) && ret0 == Join(done0, ',')
    requires comma0 == if |done0| == 0 then "" else ","
    requires ret == ret0 + comma0 + d && done == done0 + [d]
    ensures Listed(s, 0) == done + Listed(s, n + 1) && ret == Join(done, ',')
  {
    var rest := Listed(s, n + 1);
    assert Listed(s, n) == [d] + rest;
    assert done0 + ([d] + rest) == (done0 + [d]) + rest;
    JoinSnoc(done0, d, ',');
    if |done0| > 0 {
      assert comma0 == [','];
    }
  }

  /** A bit that is not shown adds nothing. */
  lemma DescribeSkip(s: LoggerState, n: nat, done: seq<string>)
    requires n < 63 && !(n in s.categories && |GetDescription(s, {n})| > 0)
    requires Listed(s, 0) == done + Listed(s, n)
    ensures Listed(s, 0) == done + Listed(s, n + 1)
  {
    assert Listed(s, n) == Listed(s, n + 1);
  }

  lemma DescribeEnd(s: LoggerState, done: seq<string>)
    requires Listed(s, 0) == done + Listed(s, 63)
    ensures Listed(s, 0) == done
  {
    assert Listed(s, 63) == [];
    assert done + [] == done;
  }

  /** Joining one more piece adds the delimiter only after a first piece. */
  lemma {:induction false} JoinSnoc(parts: seq<string>, x: string, d: char)
    ensures Join(parts + [x], d) == if |parts| == 0 then x else Join(parts, d) + [d] + x
    decreases |parts|
  {
    if |parts| == 1 {
      assert parts + [x] == [parts[0], x];
      assert [parts[0], x][1..] == [x];
    } else if |parts| > 1 {
      var all := parts + [x];
      assert all[0] == parts[0] && all[1..] == parts[1..] + [x];
      JoinSnoc(parts[1..], x, d);
    }
  }

  /** Bits that are all off list nothing. */
  lemma {:induction false} ListedNone(s: LoggerState, n: nat)
    requires n <= 63
    requires forall k | n <= k < 63 :: k !in s.categories
    ensures Listed(s, n) == []
    decreases 63 - n
  {
    if n < 63 {
      ListedNone(s, n + 1);
    }
  }

  /** With the initial settings the categories read "error,info". */
  lemma DescribeInitial()
    ensures Join(Listed(Initial(), 0), ',') == "error,info"
  {
    var s := Initial();
    ListedNone(s, 2);
    assert Listed(s, 1) == ["info"];
    assert Listed(s, 0) == ["error", "info"];
  }

  // ---------------------------------------------------------------------
  // printing and the queue

  const LINE_TEMPLATE := "" + "{}" + (" [" + "{}" + ("] " + "{}" + "\n"))
  const SOURCE_TEMPLATE := "" + "{}" + ("(" + "{}" + ("): " + "{}" + ""))

  /** The line `_print` builds: time stamp, category description in
      brackets, message and a newline. */
  function FullMessage(stamp: string, description: string, message: string): (line: string)
    ensures line == stamp + " [" + description + "] " + message + "\n"
  {
    FormatThree("", " [", "] ", "\n", stamp, description, message);
    Format(LINE_TEMPLATE, [stamp, description, message])
  }

  /** The message `print` passes on when sources are visible: file name and
      line in front. */
  function SourceMessage(file: string, line: nat, message: string): (m: string)
    ensures m == GetFileName(file) + "(" + Dec(line) + "): " + message
  {
    FormatThree("", "(", "): ", "", GetFileName(file), Dec(line), message);
    Format(SOURCE_TEMPLATE, [GetFileName(file), Dec(line), message])
  }

  /** `_print(category, message)`: with no commit delay the line goes to the
      chain at once; otherwise it is pushed at the front of the queue, or
      dropped when the queue already holds more than `QUEUE_LIMIT`. */
  function Emit(s: LoggerState, category: Mask, message: string, stamp: string): (r: LoggerState)
    ensures r.categories == s.categories && r.descriptions == s.descriptions
    ensures r.sourceVisible == s.sourceVisible && r.commitDelayMs == s.commitDelayMs
    ensures |s.queue| <= QUEUE_LIMIT + 1 ==> |r.queue| <= QUEUE_LIMIT + 1
    ensures s.commitDelayMs > 0 ==> r.delivered == s.delivered
  {
    var line := FullMessage(stamp, GetDescription(s, category), message);
    if s.commitDelayMs == 0 then s.(delivered := s.delivered + [line])
    else if |s.queue| > QUEUE_LIMIT then s
    else s.(queue := [line] + s.queue)
  }

  /** `print(category, file, line, message)`. */
  function Print(s: LoggerState, category: Mask, file: string, line: nat, message: string, stamp: string): (r: LoggerState)
    ensures r.categories == s.categories && r.descriptions == s.descriptions && r.commitDelayMs == s.commitDelayMs
  {
    if s.sourceVisible then Emit(s, category, SourceMessage(file, line, message), stamp)
    else Emit(s, category, message, stamp)
  }

  /** The `LOGGER(category, ...)` macro: nothing happens unless the
      category is enabled. */
  function Log(s: LoggerState, category: Mask, file: string, line: nat, message: string, stamp: string): (r: LoggerState)
    ensures !HasCategory(s, category) ==> r == s
    ensures r.categories == s.categories && r.descriptions == s.descriptions && r.commitDelayMs == s.commitDelayMs
  {
    if HasCategory(s, category) then Print(s, category, file, line, message, stamp) else s
  }

  /** The queue read from the back: the order in which lines were queued. */
  function Reverse(q: seq<string>): (r: seq<string>)
    ensures |r| == |q|
    ensures forall i | 0 <= i < |q| :: r[i] == q[|q| - 1 - i]
  {
    if |q| == 0 then [] else [q[|q| - 1]] + Reverse(q[..|q| - 1])
  }

  /** `flush`: the queue is emptied from the back and handed over oldest
      first. */
  method Flush(s: LoggerState) returns (r: LoggerState)
    ensures r.queue == []
    ensures r.delivered == s.delivered + Reverse(s.queue)
    ensures r.categories == s.categories && r.commitDelayMs == s.commitDelayMs
  {
    var queue := s.queue;
    var messages: seq<string> := [];
    while |queue| > 0
      invariant Reverse(s.queue) == messages + Reverse(queue)
    {
      var last := queue[|queue| - 1];
      var front := queue[..|queue| - 1];
      assert Reverse(queue) == [last] + Reverse(front);
      messages := messages + [last];
      queue := front;
    }
    r := s.(queue := [], delivered := s.delivered + messages);
  }

  /** One call of `_print`, with its category, message and time stamp. */
  datatype Entry = Entry(category: Mask, message: string, stamp: string)

  /** `_print` called for each entry in turn. */
  function EmitAll(s: LoggerState, entries: seq<Entry>): (r: LoggerState)
    ensures r.categories == s.categories && r.descriptions == s.descriptions
    ensures r.commitDelayMs == s.commitDelayMs
    decreases |entries|
  {
    if |entries| == 0 then s
    else EmitAll(Emit(s, entries[0].category, entries[0].message, entries[0].stamp), entries[1..])
  }

  /** The lines the entries become. */
  function Lines(s: LoggerState, entries: seq<Entry>): (r: seq<string>)
    ensures |r| == |entries|
  {
    seq(|entries|, i requires 0 <= i < |entries| =>
      FullMessage(entries[i].stamp, GetDescription(s, entries[i].category), entries[i].message))
  }

  /** Without a commit delay every printed line is delivered at once, in
      the order printed, and the queue is not touched. */
  lemma {:induction false} EmitAllDirect(s: LoggerState, entries: seq<Entry>)
    requires s.commitDelayMs == 0
    ensures EmitAll(s, entries).delivered == s.delivered + Lines(s, entries)
    ensures EmitAll(s, entries).queue == s.queue
    decreases |entries|
  {
    if |entries| > 0 {
      var e := entries[0];
      var line := FullMessage(e.stamp, GetDescription(s, e.category), e.message);
      var t := Emit(s, e.category, e.message, e.stamp);
      var more := Lines(t, entries[1..]);
      EmitAllDirect(t, entries[1..]);
      LinesCons(s, t, entries, line);
      assert t.delivered == s.delivered + [line];
      AppendAssoc(s.delivered, [line], more);
    }
  }

  /** With a commit delay and room in the queue, printed lines wait in the
      queue with the oldest at the back, so that reading it from the back,
      as `flush` does, gives them in the order printed; nothing is
      delivered meanwhile. */
  lemma {:induction false} EmitAllQueued(s: LoggerState, entries: seq<Entry>)
    requires s.commitDelayMs > 0 && |s.queue| + |entries| <= QUEUE_LIMIT + 1
    ensures Reverse(EmitAll(s, entries).queue) == Reverse(s.queue) + Lines(s, entries)
    ensures EmitAll(s, entries).delivered == s.delivered
    decreases |entries|
  {
    if |entries| > 0 {
      var e := entries[0];
      var line := FullMessage(e.stamp, GetDescription(s, e.category), e.message);
      var t := Emit(s, e.category, e.message, e.stamp);
      var more := Lines(t, entries[1..]);
      assert t.queue == [line] + s.queue;
      EmitAllQueued(t, entries[1..]);
      LinesCons(s, t, entries, line);
      ReverseCons(line, s.queue);
      AppendAssoc(Reverse(s.queue), [line], more);
    }
  }

  /** The first entry's line followed by the rest's. */
  lemma LinesCons(s: LoggerState, t: LoggerState, entries: seq<Entry>, line: string)
    requires |entries| > 0 && t.descriptions == s.descriptions
    requires line == FullMessage(entries[0].stamp, GetDescription(s, entries[0].category), entries[0].message)
    ensures Lines(s, entries) == [line] + Lines(t, entries[1..])
  {
    var a := Lines(s, entries);
    var b := [line] + Lines(t, entries[1..]);
    assert |a| == |b|;
    forall i | 0 <= i < |a|
      ensures a[i] == b[i]
    {
      if i > 0 {
        assert entries[1..][i - 1] == entries[i];
      }
    }
  }

  /** Pushing at the front appends at the back of the reading order. */
  lemma ReverseCons(x: string, q: seq<string>)
    ensures Reverse([x] + q) == Reverse(q) + [x]
  {
    var a := Reverse([x] + q);
    var b := Reverse(q) + [x];
    assert |a| == |b|;
    forall i | 0 <= i < |a|
      ensures a[i] == b[i]
    {
      if i < |q| {
        assert ([x] + q)[|q| - i] == q[|q| - 1 - i];
      }
    }
  }

  /** A full queue drops the line and leaves everything as it was. */
  lemma EmitWhenFull(s: LoggerState, category: Mask, message: string, stamp: string)
    requires s.commitDelayMs > 0 && |s.queue| > QUEUE_LIMIT
    ensures Emit(s, category, message, stamp) == s
  {
  }

  // ---------------------------------------------------------------------
  // formatting helpers

  /** A one-placeholder template that ends after its placeholder text. */
  lemma FormatOne(p: string, q: string, a: string)
    requires '}' !in p && '}' !in q
    ensures Format(p + "{}" + q, [a]) == p + a + q
  {
    NoCloseNoHole(p);
    FormatHole(p, q, a, []);
    assert [a] + [] == [a];
  }

  /** A three-placeholder template. */
  lemma FormatThree(p: string, q: string, t: string, u: string, a: string, b: string, c: string)
    requires '}' !in p && '}' !in q && '}' !in t && '}' !in u
    ensures Format(p + "{}" + (q + "{}" + (t + "{}" + u)), [a, b, c]) == p + a + q + b + t + c + u
  {
    var rest := q + "{}" + (t + "{}" + u);
    NoCloseNoHole(p);
    assert [a, b, c] == [a] + [b, c];
    FormatHole(p, rest, a, [b, c]);
    FormatTwoOf(q, t, u, b, c);
    var w := p + a + q + b;
    AppendAssoc(p + a + q, b, t + c + u);
    AppendAssoc(p + a, q, b + (t + c + u));
    AppendAssoc(w, t + c, u);
    AppendAssoc(w, t, c);
  }

  lemma FormatTwoOf(q: string, t: string, u: string, b: string, c: string)
    requires '}' !in q && '}' !in t && '}' !in u
    ensures Format(q + "{}" + (t + "{}" + u), [b, c]) == q + (b + (t + c + u))
  {
    NoCloseNoHole(q);
    assert [b, c] == [b] + [c];
    FormatHole(q, t + "{}" + u, b, [c]);
    FormatOne(t, u, c);
    AppendAssoc(q, b, t + c + u);
  }
}
