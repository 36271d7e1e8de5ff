/**
 * The simulator talks to the controller over a Socket.IO websocket.  Every
 * frame is a string; an event frame starts with "42" and carries a JSON
 * array `["event", {...}]`.  This module models how the message handler
 * in src/main.cpp decides what a frame is: `hasData` cuts the JSON payload
 * out of the frame, and the handler either ignores the frame, answers it
 * with the fixed manual-driving reply, or hands the payload on to the
 * telemetry path.
 *
 * Strings are sequences of characters; `std::string::npos` is `None`.
 */
module SocketIO {

  datatype Option<T> = None | Some(value: T)

  /** Width of `size_t`: the arithmetic on string positions is modulo 2^64. */
  const SizeModulus: int := 0x1_0000_0000_0000_0000

  /** No `std::string` on a 64-bit platform is longer than 2^63 - 1 characters. */
  const MaxSize: int := 0x7fff_ffff_ffff_ffff

  /** The pattern `p` occurs in `s` starting at position `k`. */
  predicate OccursAt(s: string, p: string, k: int)
  {
    0 <= k && k + |p| <= |s| && s[k..k + |p|] == p
  }

  /** The pattern `p` occurs somewhere in `s`. */
  predicate Contains(s: string, p: string)
  {
    exists k :: 0 <= k <= |s| && OccursAt(s, p, k)
  }

  /** `s.find(p, from)`: the first occurrence of `p` at or after `from`. */
  function FindFrom(s: string, p: string, from: nat): (r: Option<nat>)
    decreases |s| - from
    ensures r.Some? ==> from <= r.value && OccursAt(s, p, r.value)
    ensures r.Some? ==> forall k :: from <= k < r.value ==> !OccursAt(s, p, k)
    ensures r.None? ==> forall k :: from <= k ==> !OccursAt(s, p, k)
  {
    if from + |p| > |s| then None
    else if s[from..from + |p|] == p then Some(from)
    else FindFrom(s, p, from + 1)
  }

  /** `s.find(p)`. For a one-character `p` this is also `s.find_first_of(p)`. */
  function Find(s: string, p: string): (r: Option<nat>)
    ensures r.Some? <==> Contains(s, p)
    ensures r.Some? ==> OccursAt(s, p, r.value)
    ensures r.Some? ==> forall k :: 0 <= k < r.value ==> !OccursAt(s, p, k)
  {
    FindFrom(s, p, 0)
  }

  /** The last occurrence of `p` in `s` that starts below `n`. */
  function RFindBelow(s: string, p: string, n: nat): (r: Option<nat>)
    decreases n
    ensures r.Some? ==> r.value < n && OccursAt(s, p, r.value)
    ensures r.Some? ==> forall k :: r.value < k < n ==> !OccursAt(s, p, k)
    ensures r.None? ==> forall k :: 0 <= k < n ==> !OccursAt(s, p, k)
  {
    if n == 0 then None
    else if OccursAt(s, p, n - 1) then Some(n - 1)
    else RFindBelow(s, p, n - 1)
  }

  /** `s.rfind(p)`: the last occurrence of `p` in `s`. */
  function RFind(s: string, p: string): (r: Option<nat>)
    ensures r.Some? <==> Contains(s, p)
    ensures r.Some? ==> OccursAt(s, p, r.value)
    ensures r.Some? ==> forall k :: r.value < k ==> !OccursAt(s, p, k)
  {
    RFindBelow(s, p, |s| + 1)
  }

  /** `s.find_first_of(chars, from)`: the first position at or after `from` holding one of `chars`. */
  function FindFirstOfFrom(s: string, chars: set<char>, from: nat): (r: Option<nat>)
    decreases |s| - from
    ensures r.Some? ==> from <= r.value < |s| && s[r.value] in chars
    ensures r.Some? ==> forall k :: from <= k < r.value ==> s[k] !in chars
    ensures r.None? ==> forall k :: from <= k < |s| ==> s[k] !in chars
  {
    if from >= |s| then None
    else if s[from] in chars then Some(from)
    else FindFirstOfFrom(s, chars, from + 1)
  }

  /** `s.find_first_of(chars)`. */
  function FindFirstOf(s: string, chars: set<char>): (r: Option<nat>)
    ensures r.Some? <==> exists k :: 0 <= k < |s| && s[k] in chars
    ensures r.Some? ==> r.value < |s| && s[r.value] in chars
    ensures r.Some? ==> forall k :: 0 <= k < r.value ==> s[k] !in chars
  {
    FindFirstOfFrom(s, chars, 0)
  }

  function Min(a: int, b: int): int
  {
    if a <= b then a else b
  }

  /**
   * `s.substr(pos, count)`: the `count` characters from `pos` on, or the
   * whole rest of `s` when fewer than `count` remain.
   */
  function Substr(s: string, pos: nat, count: nat): (r: string)
    requires pos <= |s|
    ensures count <= |s| - pos ==> r == s[pos..pos + count]
    ensures count >= |s| - pos ==> r == s[pos..]
  {
    s[pos..pos + Min(count, |s| - pos)]
  }

  /** Position `b` holds the first '[' of `s`. */
  predicate FirstOpen(s: string, b: int)
  {
    0 <= b < |s| && s[b] == '[' && forall k :: 0 <= k < b ==> s[k] != '['
  }

  /** Position `b` starts the last "}]" of `s`. */
  predicate LastClose(s: string, b: int)
  {
    OccursAt(s, "}]", b) && forall k :: b < k <= |s| ==> !OccursAt(s, "}]", k)
  }

  /** The frame holds a '[' somewhere before the start of some "}]". */
  predicate HasBracketPair(s: string)
  {
    exists i, j :: 0 <= i < j <= |s| && s[i] == '[' && OccursAt(s, "}]", j)
  }

  /** A difference of two string positions, taken modulo 2^64 as `size_t` arithmetic does. */
  lemma WrappedDifference(d: int)
    ensures 0 <= d < SizeModulus ==> d % SizeModulus == d
    ensures -SizeModulus <= d < 0 ==> d % SizeModulus == d + SizeModulus
  {
    if -SizeModulus <= d < 0 {
      assert (d + SizeModulus) / SizeModulus == 0;
      assert d == (d + SizeModulus) - SizeModulus;
    }
  }

  /**
   * `hasData` exactly as written.  The length handed to `substr` is the
   * unsigned difference `b2 - b1 + 2`, which wraps around modulo 2^64 when
   * the first '[' lies more than two characters past the last "}]"; then
   * `substr` returns the whole tail from that '[' on.
   */
  function HasDataAsWritten(s: string): (r: string)
    ensures Contains(s, "null") ==> r == ""
    ensures (forall k :: 0 <= k < |s| ==> s[k] != '[') || !Contains(s, "}]") ==> r == ""
    ensures r != "" ==> r[0] == '['
  {
    var foundNull := Find(s, "null");
    var b1 := FindFirstOf(s, {'['});
    var b2 := RFind(s, "}]");
    if foundNull.Some? then ""
    else if b1.Some? && b2.Some? then
      var count := (b2.value - b1.value + 2) % SizeModulus;
      Substr(s, b1.value, count)
    else ""
  }

  /**
   * What the code returns once the first '[' at `b1` and the last "}]" at
   * `b2` are known, on a frame without "null" of at most `MaxSize`
   * characters: the slice between them when `b1 < b2`, "" when `b1` is just
   * past the "}]", and, once the length wraps, the whole tail from `b1`.
   */
  lemma AsWrittenCases(s: string, b1: nat, b2: nat)
    requires |s| <= MaxSize && !Contains(s, "null")
    requires FirstOpen(s, b1) && LastClose(s, b2)
    ensures b1 < b2 ==> HasDataAsWritten(s) == s[b1..b2 + 2]
    ensures b1 == b2 + 2 ==> HasDataAsWritten(s) == ""
    ensures b2 + 2 < b1 ==> HasDataAsWritten(s) == s[b1..]
  {
    FirstOpenFound(s, b1);
    LastCloseFound(s, b2);
    WrappedDifference(b2 - b1 + 2);
  }

  /** `find_first_of("[")` finds the first '['. */
  lemma FirstOpenFound(s: string, b: nat)
    requires FirstOpen(s, b)
    ensures FindFirstOf(s, {'['}) == Some(b)
  {
    var i := FindFirstOf(s, {'['});
    assert i.Some? && i.value <= b;
  }

  /** `rfind("}]")` finds the last "}]". */
  lemma LastCloseFound(s: string, b: nat)
    requires LastClose(s, b)
    ensures RFind(s, "}]") == Some(b)
  {
    var j := RFind(s, "}]");
    assert j.Some? && b <= j.value;
  }

  /**
   * `hasData` as its comment describes it: the JSON text of the frame, from
   * the first '[' to the end of the last "}]", or "" when the frame mentions
   * "null" or holds no such bracket pair.
   */
  function HasData(s: string): (r: string)
    ensures Contains(s, "null") ==> r == ""
    ensures r != "" <==> !Contains(s, "null") && HasBracketPair(s)
    ensures r != "" ==>
              exists b1, b2 :: FirstOpen(s, b1) && LastClose(s, b2) && b1 < b2 && r == s[b1..b2 + 2]
  {
    var foundNull := Find(s, "null");
    var b1 := FindFirstOf(s, {'['});
    var b2 := RFind(s, "}]");
    if foundNull.Some? then ""
    else if b1.Some? && b2.Some? && b1.value < b2.value then
      assert FirstOpen(s, b1.value) && LastClose(s, b2.value);
      s[b1.value..b2.value + 2]
    else
      ""
  }

  /**
   * The two versions agree unless the first '[' lies more than two
   * characters past the last "}]" (where `HasDataAsWritten` returns the
   * wrapped tail).
   */
  lemma {:induction false} AsWrittenAgrees(s: string)
    requires |s| <= MaxSize
    requires forall b1, b2 :: FirstOpen(s, b1) && LastClose(s, b2) ==> b1 <= b2 + 2
    ensures HasDataAsWritten(s) == HasData(s)
  {
    var b1 := FindFirstOf(s, {'['});
    var b2 := RFind(s, "}]");
    if Contains(s, "null") {
      assert HasDataAsWritten(s) == "" == HasData(s);
    } else if b1.None? {
      assert forall k :: 0 <= k < |s| ==> s[k] != '[';
      assert HasDataAsWritten(s) == "" == HasData(s);
    } else if b2.None? {
      assert !Contains(s, "}]");
      assert HasDataAsWritten(s) == "" == HasData(s);
    } else {
      AgreeOnPair(s, b1.value, b2.value);
    }
  }

  /** `AsWrittenAgrees` on a frame that has both a '[' and a "}]". */
  lemma AgreeOnPair(s: string, i: nat, j: nat)
    requires |s| <= MaxSize && !Contains(s, "null")
    requires FindFirstOf(s, {'['}) == Some(i) && RFind(s, "}]") == Some(j)
    requires FirstOpen(s, i) && LastClose(s, j) ==> i <= j + 2
    ensures HasDataAsWritten(s) == HasData(s)
  {
    assert FirstOpen(s, i) && LastClose(s, j);
    assert s[j] == s[j..j + 2][0] == '}' && s[j + 1] == s[j..j + 2][1] == ']';
    AsWrittenCases(s, i, j);
  }

  /**
   * On every frame where the first '[' lies more than two characters past
   * the last "}]", the wrapped length makes the code return the whole tail
   * from that '[' on, while the intended `hasData` returns "".
   */
  lemma {:induction false} AsWrittenWrapTail(s: string, b1: int, b2: int)
    requires |s| <= MaxSize
    requires FirstOpen(s, b1) && LastClose(s, b2) && b2 + 2 < b1
    requires !Contains(s, "null")
    ensures HasDataAsWritten(s) == s[b1..]
    ensures HasData(s) == ""
    ensures HasDataAsWritten(s) != HasData(s)
  {
    forall i, j | 0 <= i < |s| && s[i] == '[' && 0 <= j <= |s| && OccursAt(s, "}]", j)
      ensures j < i
    {
      assert b1 <= i;
      assert j <= b2;
    }
    assert !HasBracketPair(s);
    AsWrittenCases(s, b1, b2);
    assert s[b1..][0] == '[';
  }

  /**
   * The code returns "" only when the frame mentions "null" or has no '['
   * before a "}]": the wrap never empties a payload that should be there.
   */
  lemma {:induction false} AsWrittenEmpty(s: string)
    requires |s| <= MaxSize
    requires HasDataAsWritten(s) == ""
    ensures Contains(s, "null") || !HasBracketPair(s)
  {
    var b1 := FindFirstOf(s, {'['});
    var b2 := RFind(s, "}]");
    if !Contains(s, "null") {
      if b1.Some? && b2.Some? {
        var i, j := b1.value, b2.value;
        assert FirstOpen(s, i) && LastClose(s, j);
        AsWrittenCases(s, i, j);
        assert s[i..][0] == '[';
        assert s[j] == s[j..j + 2][0] == '}' && s[j + 1] == s[j..j + 2][1] == ']';
        assert i == j + 2;
        forall i', j' | 0 <= i' < |s| && s[i'] == '[' && 0 <= j' <= |s| && OccursAt(s, "}]", j')
          ensures j' < i'
        {
          assert i <= i';
          assert j' <= j;
        }
      } else if b1.None? {
        assert forall k :: 0 <= k < |s| ==> s[k] != '[';
      } else {
        assert !Contains(s, "}]");
      }
    }
  }

  /** A slice of a slice is a slice of the whole. */
  lemma SliceOfSlice(s: string, lo: int, hi: int, k: int, l: int)
    requires 0 <= lo <= hi <= |s| && 0 <= k <= l <= hi - lo
    ensures s[lo..hi][k..l] == s[lo + k..lo + l]
  {
    assert |s[lo..hi][k..l]| == l - k == |s[lo + k..lo + l]|;
    forall i | 0 <= i < l - k ensures s[lo..hi][k..l][i] == s[lo + k..lo + l][i] {
      assert s[lo..hi][k..l][i] == s[lo..hi][k + i] == s[lo + k + i];
    }
  }

  /** A non-empty payload is a '['…"}]" piece of the frame that never mentions "null". */
  lemma {:induction false} PayloadShape(s: string)
    requires HasData(s) != ""
    ensures var r := HasData(s);
      |r| >= 2 && r[0] == '[' && r[|r| - 2..] == "}]" && !Contains(r, "null") && Contains(s, r)
  {
    var b1, b2 :| FirstOpen(s, b1) && LastClose(s, b2) && b1 < b2 && HasData(s) == s[b1..b2 + 2];
    PayloadAt(s, b1, b2);
  }

  /** `PayloadShape` for the slice from a '[' at `b1` to the end of a "}]" at `b2`. */
  lemma PayloadAt(s: string, b1: int, b2: int)
    requires 0 <= b1 < b2 && OccursAt(s, "}]", b2) && s[b1] == '[' && !Contains(s, "null")
    ensures var r := s[b1..b2 + 2];
      |r| >= 2 && r[0] == '[' && r[|r| - 2..] == "}]" && !Contains(r, "null") && Contains(s, r)
  {
    var r := s[b1..b2 + 2];
    assert r[|r| - 2..] == s[b2..b2 + 2];
    NoNullInSlice(s, b1, b2 + 2);
    assert OccursAt(s, r, b1);
  }

  /** A slice of a string without "null" has no "null" either. */
  lemma NoNullInSlice(s: string, lo: int, hi: int)
    requires 0 <= lo <= hi <= |s| && !Contains(s, "null")
    ensures !Contains(s[lo..hi], "null")
  {
    var r := s[lo..hi];
    forall k | 0 <= k <= |r| ensures !OccursAt(r, "null", k) {
      if k + 4 <= |r| {
        SliceOfSlice(s, lo, hi, k, k + 4);
        assert !OccursAt(s, "null", lo + k);
      }
    }
  }

  /** A frame the code mishandles: the first '[' comes after the last "}]". */
  lemma WrapCounterexample()
    ensures HasDataAsWritten("42}]x[") == "["
    ensures HasData("42}]x[") == ""
  {
    var s := "42}]x[";
    forall k | 0 <= k <= 2 ensures !OccursAt(s, "null", k) {
      assert s[k..k + 4][0] == s[k];
      assert k == 0 || k == 1 || k == 2;
    }
    assert !Contains(s, "null");
    assert s[2..4] == "}]";
    assert s[3] == ']' && s[4] == 'x';
    forall k | 3 <= k <= 4 ensures !OccursAt(s, "}]", k) {
      assert s[k..k + 2][0] == s[k];
      assert k == 3 || k == 4;
    }
    assert LastClose(s, 2);
    assert FirstOpen(s, 5);
    assert RFind(s, "}]") == Some(2);
    assert FindFirstOf(s, {'['}) == Some(5);
    WrappedDifference(-1);
  }

  /** What the message handler does with one frame. */
  datatype Action =
    | Ignore                      // not a Socket.IO event frame
    | SendManual(reply: string)   // event without usable data: hand control to the driver
    | HandOn(payload: string)     // handed to `json::parse`; the "telemetry" event test comes later

  /** The reply sent when an event frame carries no data. */
  const ManualMessage: string := "42[\"manual\",{}]"

  /** The frame is a Socket.IO event: longer than two characters and starting with "42". */
  predicate IsEventFrame(frame: string)
  {
    |frame| > 2 && frame[0] == '4' && frame[1] == '2'
  }

  /** The event test on the first two characters is the test for the prefix "42". */
  lemma EventFramePrefix(frame: string)
    ensures IsEventFrame(frame) <==> |frame| > 2 && frame[..2] == "42"
  {
    if |frame| > 2 && frame[..2] == "42" {
      assert frame[..2][0] == frame[0] && frame[..2][1] == frame[1];
    }
  }

  /**
   * The decision rule of `h.onMessage`, given what `hasData` returned for
   * the frame: only event frames are looked at; an empty payload is answered
   * with the manual-driving reply, any other payload is handed on.
   */
  function Classify(frame: string, data: string): (a: Action)
    ensures a.Ignore? <==> !IsEventFrame(frame)
    ensures a.SendManual? <==> IsEventFrame(frame) && data == ""
    ensures a.SendManual? ==> a.reply == "42[\"manual\",{}]"
    ensures a.HandOn? ==> a.payload == data && data != ""
  {
    if IsEventFrame(frame) then
      if data != "" then HandOn(data) else SendManual(ManualMessage)
    else Ignore
  }

  /**
   * The handler as written, on the code's own `hasData`: event frames only;
   * the manual reply only when the frame mentions "null" or has no '['
   * before a "}]"; a payload handed on is what `HasDataAsWritten` returns and
   * starts with '['.
   */
  function OnMessageAsWritten(frame: string): (a: Action)
    ensures !a.Ignore? <==> |frame| > 2 && frame[..2] == "42"
    ensures a.SendManual? ==> a.reply == "42[\"manual\",{}]"
    ensures a.SendManual? && |frame| <= MaxSize ==> Contains(frame, "null") || !HasBracketPair(frame)
    ensures a.HandOn? <==> IsEventFrame(frame) && HasDataAsWritten(frame) != ""
    ensures a.HandOn? ==>
              a.payload == HasDataAsWritten(frame) && |a.payload| >= 1 && a.payload[0] == '[' && !Contains(frame, "null")
  {
    EventFramePrefix(frame);
    var data := HasDataAsWritten(frame);
    if |frame| <= MaxSize && data == "" then
      AsWrittenEmpty(frame);
      Classify(frame, data)
    else
      Classify(frame, data)
  }

  /**
   * The handler with the intended `hasData`: an event frame gets the exact
   * manual reply precisely when it mentions "null" or has no '[' before a
   * "}]"; otherwise the payload handed on is exactly `HasData(frame)`, a
   * '['…"}]" piece of the frame after its "42" prefix that has no "null".
   */
  function OnMessage(frame: string): (a: Action)
    ensures !a.Ignore? <==> |frame| > 2 && frame[..2] == "42"
    ensures a.SendManual? <==> !a.Ignore? && (Contains(frame, "null") || !HasBracketPair(frame))
    ensures a.SendManual? ==> a.reply == "42[\"manual\",{}]"
    ensures a.HandOn? ==> a.payload == HasData(frame)
    ensures a.HandOn? ==>
              |a.payload| >= 2 && a.payload[0] == '[' && a.payload[|a.payload| - 2..] == "}]" &&
              !Contains(a.payload, "null") && Contains(frame[2..], a.payload)
  {
    EventFramePrefix(frame);
    var s := HasData(frame);
    if IsEventFrame(frame) && s != "" then
      PayloadShape(frame);
      var b :| 0 <= b <= |frame| && OccursAt(frame, s, b);
      assert frame[b] == s[0] == '[';
      assert OccursAt(frame[2..], s, b - 2) by {
        assert frame[2..][b - 2..b - 2 + |s|] == frame[b..b + |s|];
      }
      Classify(frame, s)
    else
      Classify(frame, s)
  }

  /** Outside the wrap case the handler as written behaves as intended. */
  lemma {:induction false} DispatchAgrees(frame: string)
    requires |frame| <= MaxSize
    requires forall b1, b2 :: FirstOpen(frame, b1) && LastClose(frame, b2) ==> b1 <= b2 + 2
    ensures OnMessageAsWritten(frame) == OnMessage(frame)
  {
    AsWrittenAgrees(frame);
  }

  /**
   * On every event frame in the wrap case the code hands the tail from the
   * first '[' on to the JSON parser, where the intended handler sends the
   * manual reply.
   */
  lemma {:induction false} DispatchWrapDiffers(frame: string, b1: int, b2: int)
    requires IsEventFrame(frame) && |frame| <= MaxSize
    requires FirstOpen(frame, b1) && LastClose(frame, b2) && b2 + 2 < b1
    requires !Contains(frame, "null")
    ensures OnMessageAsWritten(frame) == HandOn(frame[b1..])
    ensures OnMessage(frame) == SendManual("42[\"manual\",{}]")
  {
    AsWrittenWrapTail(frame, b1, b2);
  }
}
