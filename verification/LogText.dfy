/** The kernel log as values: which messages are still in it after each new one. */
module LogText {
  const MBUFSIZE := 0x1_0000
  const RBUFSIZE := 0x400
  const NUL := '\0'

  datatype Message = Message(level: int, text: string) {
    /** Characters in the buffer, with the terminator. */
    function Size(): nat { |text| + 1 }
    ghost predicate Clean() { NUL !in text }
  }

  ghost predicate AllClean(live: seq<Message>) {
    forall i :: 0 <= i < |live| ==> live[i].Clean()
  }

  /** The texts of the messages, each with its terminator. */
  function Text(live: seq<Message>): string {
    if live == [] then [] else live[0].text + [NUL] + Text(live[1..])
  }

  /** Where the text of message j starts. */
  function Start(live: seq<Message>, j: nat): (s: nat)
    requires j <= |live|
    ensures s >= j
  {
    if j == 0 then 0 else live[0].Size() + Start(live[1..], j - 1)
  }

  lemma {:induction false} TextLength(live: seq<Message>)
    ensures |Text(live)| == Start(live, |live|)
  {
    if live != [] { TextLength(live[1..]); }
  }

  lemma {:induction false} TextAppend(live: seq<Message>, m: Message)
    ensures Text(live + [m]) == Text(live) + m.text + [NUL]
  {
    if live == [] {
      assert [m][1..] == [];
    } else {
      assert (live + [m])[1..] == live[1..] + [m];
      TextAppend(live[1..], m);
    }
  }

  lemma {:induction false} StartAppend(live: seq<Message>, m: Message, j: nat)
    requires j <= |live|
    ensures Start(live + [m], j) == Start(live, j)
  {
    if j > 0 {
      assert (live + [m])[1..] == live[1..] + [m];
      StartAppend(live[1..], m, j - 1);
    }
  }

  lemma {:induction false} StartIncreases(live: seq<Message>, i: nat, j: nat)
    requires i <= j <= |live|
    ensures Start(live, j) >= Start(live, i) + (j - i)
  {
    if i > 0 { StartIncreases(live[1..], i - 1, j - 1); }
  }

  /** evict_msg: how many messages it takes away, those that start within the first n characters or right after them. */
  function Evicted(live: seq<Message>, n: nat): (d: nat)
    ensures d <= |live|
  {
    if live == [] then 0
    else if n < live[0].Size() then 1
    else 1 + Evicted(live[1..], n - live[0].Size())
  }

  /** Enough is taken away, and at most one message more than needed. */
  lemma {:induction false} EvictedEnough(live: seq<Message>, n: nat)
    requires 0 < n <= |Text(live)|
    ensures var d := Evicted(live, n);
      && 0 < d && Start(live, d) >= n
      && (d >= 2 ==> Start(live, d - 2) < n)
  {
    EvictedRight(live, n);
    TextLength(live);
    var d := Evicted(live, n);
    if d >= 2 { StartIncreases(live, d - 2, d - 1); }
  }

  /** The messages taken away are exactly those that start at n or before. */
  lemma {:induction false} EvictedRight(live: seq<Message>, n: nat)
    ensures forall i :: 0 <= i < |live| ==> (i < Evicted(live, n) <==> Start(live, i) <= n)
  {
    if live != [] && n >= live[0].Size() {
      EvictedRight(live[1..], n - live[0].Size());
    }
    forall i | 0 <= i < |live|
      ensures i < Evicted(live, n) <==> Start(live, i) <= n
    {
      if i > 0 {
        StartIncreases(live[1..], 0, i - 1);
        if n >= live[0].Size() {
          var rest := n - live[0].Size();
          assert i - 1 < Evicted(live[1..], rest) <==> Start(live[1..], i - 1) <= rest;
        }
      }
    }
  }

  /** One message too many goes exactly when the n characters end where a message ends that is not the last. */
  lemma EvictedTooMany(live: seq<Message>, n: nat)
    requires 0 < n <= |Text(live)|
    ensures var d := Evicted(live, n);
      Start(live, d - 1) >= n <==> exists i :: 0 < i < |live| && Start(live, i) == n
  {
    EvictedEnough(live, n);
    EvictedRight(live, n);
    var d := Evicted(live, n);
    if Start(live, d - 1) >= n {
      assert d - 1 < Evicted(live, n);
      assert Start(live, d - 1) == n;
      assert d - 1 > 0;
    }
    if i :| 0 < i < |live| && Start(live, i) == n {
      StartIncreases(live, i, d - 1);
    }
  }

  /** The messages left after making room for one of this size. */
  function Kept(live: seq<Message>, size: nat): seq<Message> {
    var over := |Text(live)| + size - MBUFSIZE;
    if over > 0 then live[Evicted(live, over)..] else live
  }

  /** The live messages after a new one. */
  function Logged(live: seq<Message>, m: Message): seq<Message> {
    var kept := Kept(live, m.Size());
    (if |kept| == RBUFSIZE then kept[1..] else kept) + [m]
  }

  lemma {:induction false} TextDrop(live: seq<Message>, d: nat)
    requires d <= |live|
    ensures Start(live, d) <= |Text(live)| && Text(live[d..]) == Text(live)[Start(live, d)..]
  {
    if d == 0 {
      assert live[0..] == live;
    } else {
      TextDrop(live[1..], d - 1);
      assert live[1..][d - 1..] == live[d..];
    }
  }

  /** The characters of message j, where it starts. */
  lemma TextAt(live: seq<Message>, j: nat, k: nat)
    requires j < |live| && k < live[j].Size()
    ensures Start(live, j) + k < |Text(live)| && Text(live)[Start(live, j) + k] == (live[j].text + [NUL])[k]
  {
    TextDrop(live, j);
    var rest := live[j..];
    assert rest[0] == live[j] && Text(rest) == rest[0].text + [NUL] + Text(rest[1..]);
    assert Text(rest)[k] == Text(live)[Start(live, j) + k];
  }

  /** There is room for the new message. */
  lemma KeptFits(live: seq<Message>, size: nat)
    requires |Text(live)| <= MBUFSIZE && size <= MBUFSIZE
    ensures |Text(Kept(live, size))| + size <= MBUFSIZE
  {
    var over := |Text(live)| + size - MBUFSIZE;
    if over > 0 {
      EvictedEnough(live, over);
      TextDrop(live, Evicted(live, over));
    }
  }

  /** Room for a message of this size: nothing goes if it fits into the 64 KiB; otherwise so many messages go that one
      fewer would leave no character unused, the new message included. */
  ghost predicate MakesRoom(live: seq<Message>, size: nat, kept: seq<Message>) {
    var d := |live| - |kept|;
    && d >= 0 && kept == live[d..] && |Text(kept)| + size <= 0x1_0000
    && if |Text(live)| + size <= 0x1_0000 then d == 0 else d >= 1 && |Text(live[d - 1..])| + size >= 0x1_0000
  }

  lemma KeptLeast(live: seq<Message>, size: nat)
    requires |Text(live)| <= MBUFSIZE && 0 < size <= MBUFSIZE
    ensures MakesRoom(live, size, Kept(live, size))
  {
    KeptFits(live, size);
    var over := |Text(live)| + size - MBUFSIZE;
    if over > 0 {
      EvictedEnough(live, over);
      EvictedRight(live, over);
      TextDrop(live, Evicted(live, over) - 1);
    }
  }

  /** What a new message costs: the messages that must make room for its text; or, if none must and there are 1024
      messages already, the oldest one. */
  ghost predicate LosesLeast(live: seq<Message>, m: Message, next: seq<Message>) {
    var d := |live| + 1 - |next|;
    && 0 <= d <= |live| && next == live[d..] + [m]
    && if |Text(live)| + |m.text| + 1 <= 0x1_0000 then d == (if |live| < 0x400 then 0 else 1)
       else MakesRoom(live, |m.text| + 1, live[d..])
  }

  lemma LeastLost(live: seq<Message>, m: Message, kept: seq<Message>, next: seq<Message>)
    requires |live| <= 0x400 && MakesRoom(live, |m.text| + 1, kept)
    requires next == (if |kept| == 0x400 then kept[1..] else kept) + [m]
    ensures LosesLeast(live, m, next)
  {
    if |Text(live)| + |m.text| + 1 <= 0x1_0000 {
      assert kept == live;
    } else {
      assert live[|live| + 1 - |next|..] == kept;
    }
  }

  lemma LoggedLeast(live: seq<Message>, m: Message)
    requires Fits(live) && Logable(m)
    ensures LosesLeast(live, m, Logged(live, m))
  {
    KeptLeast(live, m.Size());
    LeastLost(live, m, Kept(live, m.Size()), Logged(live, m));
  }

  // ----- Whole runs -----

  function LoggedAll(live: seq<Message>, ms: seq<Message>): seq<Message> {
    if ms == [] then live else Logged(LoggedAll(live, ms[..|ms| - 1]), ms[|ms| - 1])
  }

  ghost predicate Suffix(s: seq<Message>, t: seq<Message>) {
    |s| <= |t| && s == t[|t| - |s|..]
  }

  ghost predicate Logable(m: Message) { m.Clean() && m.Size() <= MBUFSIZE }

  lemma LoggedSuffix(live: seq<Message>, m: Message, history: seq<Message>)
    requires Suffix(live, history)
    ensures var next := Logged(live, m); Suffix(next, history + [m]) && next != [] && next[|next| - 1] == m
  {
  }

  /** After any run the log holds an exact suffix of all messages ever logged, with the newest, and it fits the
      buffers. */
  lemma {:induction false} RunKeepsNewest(ms: seq<Message>)
    requires forall i :: 0 <= i < |ms| ==> Logable(ms[i])
    ensures var live := LoggedAll([], ms);
      && Suffix(live, ms) && (ms != [] ==> live != [] && live[|live| - 1] == ms[|ms| - 1])
      && Fits(live)
  {
    if ms != [] {
      var front, m := ms[..|ms| - 1], ms[|ms| - 1];
      assert front + [m] == ms && forall i :: 0 <= i < |front| ==> front[i] == ms[i];
      RunKeepsNewest(front);
      LoggedSuffix(LoggedAll([], front), m, front);
      LoggedFits(LoggedAll([], front), m);
    }
  }

  /** The text of a list contains that of its end. */
  lemma TextGrows(live: seq<Message>, i: nat, j: nat)
    requires i <= j <= |live|
    ensures |Text(live[j..])| <= |Text(live[i..])|
  {
    TextDrop(live, i);
    TextDrop(live, j);
    StartIncreases(live, i, j);
  }

  /** The oldest message lost, and all after it, would fill the text buffer or be more than 1024. */
  ghost predicate NothingWasted(ms: seq<Message>, lost: nat)
    requires lost <= |ms|
  {
    lost == 0 || |Text(ms[lost - 1..])| >= 0x1_0000 || |ms| - (lost - 1) > 0x400
  }

  lemma TailAppended(front: seq<Message>, m: Message, k: nat)
    requires k <= |front|
    ensures (front + [m])[k..] == front[k..] + [m]
    ensures |Text((front + [m])[k..])| == |Text(front[k..])| + m.Size()
  {
    TextAppend(front[k..], m);
  }

  lemma SuffixTail(live: seq<Message>, front: seq<Message>, d: nat)
    requires Suffix(live, front) && d <= |live|
    ensures front[|front| - |live| + d..] == live[d..]
  {
  }

  lemma FullWith(front: seq<Message>, m: Message, k: nat)
    requires k <= |front|
    requires |Text(front[k..])| + m.Size() >= 0x1_0000 || |front| + 1 - k > 0x400
    ensures NothingWasted(front + [m], k + 1)
  {
    TailAppended(front, m, k);
  }

  /** With one message more. */
  lemma NowNothingWasted(front: seq<Message>, m: Message, live: seq<Message>, next: seq<Message>)
    requires Suffix(live, front) && LosesLeast(live, m, next) && |live| <= 0x400
    requires NothingWasted(front, |front| - |live|)
    ensures NothingWasted(front + [m], |front| + 1 - |next|)
  {
    var was, d := |front| - |live|, |live| + 1 - |next|;
    if d > 0 {
      SuffixTail(live, front, d - 1);
      FullWith(front, m, was + d - 1);
    } else if was > 0 {
      FullWith(front, m, was - 1);
    }
  }

  lemma StepWastesNothing(front: seq<Message>, m: Message, live: seq<Message>)
    requires Suffix(live, front) && Fits(live) && Logable(m) && NothingWasted(front, |front| - |live|)
    ensures |Logged(live, m)| <= |front| + 1 && NothingWasted(front + [m], |front| + 1 - |Logged(live, m)|)
  {
    LoggedLeast(live, m);
    NowNothingWasted(front, m, live, Logged(live, m));
  }

  lemma LoggedLast(ms: seq<Message>)
    requires ms != []
    ensures ms == ms[..|ms| - 1] + [ms[|ms| - 1]]
    ensures LoggedAll([], ms) == Logged(LoggedAll([], ms[..|ms| - 1]), ms[|ms| - 1])
  {
  }

  lemma {:induction false} RunWastesNothing(ms: seq<Message>)
    requires forall i :: 0 <= i < |ms| ==> Logable(ms[i])
    ensures |LoggedAll([], ms)| <= |ms| && NothingWasted(ms, |ms| - |LoggedAll([], ms)|)
  {
    if ms != [] {
      var front, m := ms[..|ms| - 1], ms[|ms| - 1];
      LoggedLast(ms);
      RunWastesNothing(front);
      RunKeepsNewest(front);
      StepWastesNothing(front, m, LoggedAll([], front));
    }
  }

  lemma WouldFill(ms: seq<Message>, lost: nat, i: nat)
    requires lost <= |ms| && NothingWasted(ms, lost) && i < lost && |ms| - i <= 0x400
    ensures |Text(ms[i..])| >= 0x1_0000
  {
    TextGrows(ms, i, lost - 1);
  }

  /** Of two ends of a list the shorter is an end of the longer. */
  lemma SuffixesOf(ms: seq<Message>, live: seq<Message>, i: nat)
    requires Suffix(live, ms) && |ms| - |live| <= i <= |ms|
    ensures Suffix(ms[i..], live)
  {
  }

  lemma EndKept(ms: seq<Message>, live: seq<Message>, i: nat)
    requires Suffix(live, ms) && NothingWasted(ms, |ms| - |live|)
    requires i <= |ms| && |ms| - i <= 0x400 && |Text(ms[i..])| < 0x1_0000
    ensures Suffix(ms[i..], live)
  {
    if i < |ms| - |live| { WouldFill(ms, |ms| - |live|, i); } else { SuffixesOf(ms, live, i); }
  }

  /** After any run the log has every message that it could: each end of the run with at most 1024 messages and less
      than 64 KiB of text is still there. */
  lemma RunLosesLeast(ms: seq<Message>, i: nat)
    requires forall k :: 0 <= k < |ms| ==> Logable(ms[k])
    requires i <= |ms| && |ms| - i <= 0x400 && |Text(ms[i..])| < 0x1_0000
    ensures Suffix(ms[i..], LoggedAll([], ms))
  {
    RunWastesNothing(ms);
    RunKeepsNewest(ms);
    EndKept(ms, LoggedAll([], ms), i);
  }

  /** Messages that both buffers can hold. */
  ghost predicate Fits(live: seq<Message>) {
    |live| <= RBUFSIZE && |Text(live)| <= MBUFSIZE && AllClean(live)
  }

  lemma LoggedFits(live: seq<Message>, m: Message)
    requires Fits(live) && Logable(m)
    ensures Fits(Logged(live, m))
  {
    var kept := Kept(live, m.Size());
    KeptFits(live, m.Size());
    TextAppend(kept, m);
    if |kept| == RBUFSIZE {
      TextDrop(kept, 1);
      TextAppend(kept[1..], m);
    }
  }
}
