/** The kernel log: a ring of records beside a ring of message text. */
module Log {
  import opened LogText

  /** A record: the level, and where the text starts in the text buffer (MBUFSIZE stands for 0). */
  datatype Record = Record(level: int, moffset: nat)

  // Positions count from the first character or record ever written; the rings hold them modulo their sizes.

  function MSlot(p: nat): (i: nat)
    ensures i < MBUFSIZE
  {
    p % MBUFSIZE
  }

  function RSlot(p: nat): (i: nat)
    ensures i < RBUFSIZE
  {
    p % RBUFSIZE
  }

  lemma RSlotApart(p: nat, q: nat)
    requires p < q < p + RBUFSIZE
    ensures RSlot(p) != RSlot(q)
  {
  }

  lemma MSlotNext(p: nat)
    ensures MSlot(p + 1) == (MSlot(p) + 1) % MBUFSIZE
  {
  }

  lemma RSlotNext(p: nat)
    ensures RSlot(p + 1) == (RSlot(p) + 1) % RBUFSIZE
  {
  }

  /** The ring holds these characters, the first at position base. */
  ghost predicate Holds(ring: seq<char>, base: nat, content: string) {
    |ring| == MBUFSIZE && forall k :: 0 <= k < |content| ==> ring[MSlot(base + k)] == content[k]
  }

  ghost predicate HoldsRecords(ring: seq<Record>, base: nat, recs: seq<Record>) {
    |ring| == RBUFSIZE && forall k :: 0 <= k < |recs| ==> ring[RSlot(base + k)] == recs[k]
  }

  /** A record written after the held ones. */
  lemma RecordAppended(was: seq<Record>, ring: seq<Record>, base: nat, recs: seq<Record>, r: Record)
    requires HoldsRecords(was, base, recs) && |recs| < RBUFSIZE && ring == was[RSlot(base + |recs|) := r]
    ensures HoldsRecords(ring, base, recs + [r])
  {
    forall k | 0 <= k < |recs|
      ensures ring[RSlot(base + k)] == recs[k]
    {
      RSlotApart(base + k, base + |recs|);
    }
  }

  /** One record for each message, in order, with its level and where its text starts. */
  ghost predicate Matched(recs: seq<Record>, live: seq<Message>, begin: nat) {
    && |recs| == |live|
    && forall j :: 0 <= j < |live| ==>
      recs[j].level == live[j].level && MSlot(recs[j].moffset) == MSlot(begin + Start(live, j))
  }

  lemma MatchedDrop(recs: seq<Record>, live: seq<Message>, begin: nat)
    requires Matched(recs, live, begin) && live != []
    ensures Matched(recs[1..], live[1..], begin + live[0].Size())
  {
  }

  lemma MatchedAdd(recs: seq<Record>, live: seq<Message>, begin: nat, r: Record, m: Message)
    requires Matched(recs, live, begin) && r.level == m.level && MSlot(r.moffset) == MSlot(begin + |Text(live)|)
    ensures Matched(recs + [r], live + [m], begin)
  {
    TextLength(live);
    forall j | 0 <= j <= |live|
      ensures (recs + [r])[j].level == (live + [m])[j].level
      ensures MSlot((recs + [r])[j].moffset) == MSlot(begin + Start(live + [m], j))
    {
      StartAppend(live, m, j);
    }
  }

  /** A terminator in the text buffer is the end of the first message. */
  lemma FirstNul(live: seq<Message>, c: nat)
    requires live != [] && AllClean(live) && c < live[0].Size()
    ensures |Text(live)| == live[0].Size() + |Text(live[1..])| && Text(live[1..]) == Text(live)[live[0].Size()..]
    ensures Text(live)[c] == NUL <==> c == live[0].Size() - 1
  {
  }

  /** The text buffer starts with the first message's text and its terminator. */
  lemma FirstText(live: seq<Message>, m: Message, content: string)
    requires live != [] && AllClean(live) && content == Text(live + [m])
    ensures var text := live[0].text;
      && |text| < |content| && content[..|text|] == text && content[|text|] == NUL && NUL !in text
      && content[|text| + 1..] == Text(live[1..] + [m])
      && |Text(live)| == |text| + 1 + |Text(live[1..])| && live[0].Size() == |text| + 1
  {
    assert live[0].Clean();
    assert (live + [m])[1..] == live[1..] + [m];
    assert content == live[0].text + ([NUL] + Text(live[1..] + [m]));
  }

  class Context {
    const rbuf: array<Record>
    var rhead: nat
    var rtail: nat
    var rbufsz: nat
    const mbuf: array<char>
    var mhead: nat
    var mtail: nat
    var mbufsz: nat

    ghost var base: nat         // position of the first character
    ghost var rbase: nat        // position of the first record
    ghost var content: string   // the characters in the text buffer
    ghost var recs: seq<Record>
    ghost var live: seq<Message>
    ghost var history: seq<Message>

    constructor ()
      ensures Valid() && live == [] && history == [] && fresh(rbuf) && fresh(mbuf)
    {
      rbuf, mbuf := new Record[RBUFSIZE](_ => Record(0, 0)), new char[MBUFSIZE](_ => NUL);
      rhead, rtail, rbufsz, mhead, mtail, mbufsz := 0, 0, 0, 0, 0, 0;
      base, rbase, content, recs, live, history := 0, 0, [], [], [], [];
    }

    ghost predicate TextRing()
      reads this`mhead, this`mtail, this`mbufsz, this`base, this`content, mbuf
    {
      && Holds(mbuf[..], base, content) && mbufsz == |content| <= MBUFSIZE
      && mhead == MSlot(base) && mtail <= MBUFSIZE && MSlot(mtail) == MSlot(base + |content|)
    }

    ghost predicate RecordRing()
      reads this`rhead, this`rtail, this`rbufsz, this`rbase, this`recs, rbuf
    {
      && HoldsRecords(rbuf[..], rbase, recs) && rbufsz == |recs| <= RBUFSIZE
      && rhead == RSlot(rbase) && rtail == RSlot(rbase + |recs|)
    }

    /** The rings hold the live messages. */
    ghost predicate Sound()
      reads this`mhead, this`mtail, this`mbufsz, this`base, this`content, mbuf
      reads this`rhead, this`rtail, this`rbufsz, this`rbase, this`recs, rbuf, this`live
    {
      TextRing() && RecordRing() && Matched(recs, live, base) && content == Text(live) && Fits(live)
    }

    ghost predicate Valid()
      reads this, rbuf, mbuf
    {
      Sound() && Suffix(live, history)
    }

    method EvictRecord()
      requires RecordRing() && recs != []
      modifies this`rhead, this`rbufsz, this`rbase, this`recs
      ensures RecordRing() && recs == old(recs)[1..]
    {
      RSlotNext(rbase);
      rhead := (rhead + 1) % RBUFSIZE;
      rbufsz := rbufsz - 1;
      forall k | 0 <= k < |recs| - 1
        ensures rbuf[RSlot(rbase + 1 + k)] == recs[1..][k]
      {
        assert rbuf[RSlot(rbase + (k + 1))] == recs[k + 1];
      }
      rbase, recs := rbase + 1, recs[1..];
    }

    /** Takes the oldest character out of the text buffer. */
    method TakeChar() returns (ch: char)
      requires TextRing() && content != []
      modifies this`mhead, this`mbufsz, this`base, this`content
      ensures TextRing() && ch == old(content[0]) && content == old(content)[1..] && base == old(base) + 1
    {
      assert mbuf[MSlot(base + 0)] == content[0];
      MSlotNext(base);
      ch := mbuf[mhead];
      mhead := (mhead + 1) % MBUFSIZE;
      mbufsz := mbufsz - 1;
      forall k | 0 <= k < |content| - 1
        ensures mbuf[MSlot(base + 1 + k)] == content[1..][k]
      {
        assert mbuf[MSlot(base + (k + 1))] == content[k + 1];
      }
      base, content := base + 1, content[1..];
    }

    /** In the middle of evicting: c characters of the first message are gone. */
    ghost predicate Between(c: nat)
      reads this, rbuf, mbuf
    {
      && TextRing() && RecordRing() && c <= base && Matched(recs, live, base - c) && AllClean(live)
      && c <= |Text(live)| && content == Text(live)[c..] && (if live == [] then c == 0 else c < live[0].Size())
    }

    /** Takes one character, and the record with the end of its message. */
    method EvictChar(ghost c: nat) returns (ch: char, ghost c': nat)
      requires Between(c) && content != []
      modifies this`mhead, this`mbufsz, this`base, this`content, this`rhead, this`rbufsz, this`rbase, this`recs,
        this`live
      ensures Between(c') && live == if ch == NUL then old(live)[1..] else old(live)
      ensures old(live) != [] && (ch == NUL <==> c == old(live[0].Size()) - 1) && c' == if ch == NUL then 0 else c + 1
    {
      FirstNul(live, c);
      ghost var t := Text(live);
      assert content[0] == t[c];
      ch := TakeChar();
      assert content == t[c + 1..];
      c' := c + 1;
      if ch == NUL {
        EndMessage();
        c' := 0;
      }
    }

    /** The first message's characters are all gone: its record goes too. */
    method EndMessage()
      requires TextRing() && RecordRing() && live != [] && AllClean(live) && live[0].Size() <= base
      requires Matched(recs, live, base - live[0].Size()) && content == Text(live[1..])
      modifies this`rhead, this`rbufsz, this`rbase, this`recs, this`live
      ensures Between(0) && live == old(live)[1..]
    {
      EvictRecord();
      MatchedDrop(old(recs), live, base - live[0].Size());
      live := live[1..];
    }

    /** In the middle of evicting messages of `was`: d of them are gone, and `left` more characters are to go. */
    ghost predicate Evicting(was: seq<Message>, chars: nat, left: nat, c: nat, d: nat)
      reads this, rbuf, mbuf
    {
      && Between(c) && d <= |was| && live == was[d..]
      && d + Evicted(live, left + c) == Evicted(was, chars)
    }

    /** evict_msg: takes this many characters, and then the rest of the message that follows. */
    method EvictMsg(chars: nat)
      requires Between(0)
      modifies this`mhead, this`mbufsz, this`base, this`content, this`rhead, this`rbufsz, this`rbase, this`recs,
        this`live
      ensures Between(0) && live == old(live)[Evicted(old(live), chars)..]
    {
      ghost var c, d := EvictChars(chars);
      EvictRest(old(live), chars, c, d);
    }

    /** The first loop: takes the characters, or all there are. */
    method EvictChars(chars: nat) returns (ghost c: nat, ghost d: nat)
      requires Between(0)
      modifies this`mhead, this`mbufsz, this`base, this`content, this`rhead, this`rbufsz, this`rbase, this`recs,
        this`live
      ensures Evicting(old(live), chars, 0, c, d)
    {
      c, d := 0, 0;
      ghost var was := live;
      assert was[0..] == was;
      var i := 0;
      while i < chars && mbufsz > 0
        invariant i <= chars && Evicting(was, chars, chars - i, c, d)
      {
        c, d := EvictOne(was, chars, chars - i, c, d);
        i := i + 1;
      }
    }

    /** One round of the first loop. */
    method EvictOne(ghost was: seq<Message>, ghost chars: nat, ghost left: nat, ghost c: nat, ghost d: nat)
      returns (ghost c': nat, ghost d': nat)
      requires Evicting(was, chars, left, c, d) && left > 0 && content != []
      modifies this`mhead, this`mbufsz, this`base, this`content, this`rhead, this`rbufsz, this`rbase, this`recs,
        this`live
      ensures Evicting(was, chars, left - 1, c', d')
    {
      var ch;
      ch, c' := EvictChar(c);
      d' := if ch == NUL then d + 1 else d;
    }

    /** The second loop: takes characters up to the end of a message. */
    method EvictRest(ghost was: seq<Message>, ghost chars: nat, ghost c0: nat, ghost d: nat)
      requires Evicting(was, chars, 0, c0, d)
      modifies this`mhead, this`mbufsz, this`base, this`content, this`rhead, this`rbufsz, this`rbase, this`recs,
        this`live
      ensures Between(0) && live == was[Evicted(was, chars)..]
    {
      ghost var c := c0;
      while mbufsz > 0
        invariant Evicting(was, chars, 0, c, d)
        decreases mbufsz
      {
        var ch;
        ch, c := EvictChar(c);
        if ch == NUL { return; }
      }
    }

    /** evict_oldest_msg: takes the characters of the first text. */
    method EvictOldestMsg(ghost text: string)
      requires TextRing() && |text| < |content| && content[..|text|] == text && content[|text|] == NUL && NUL !in text
      modifies this`mhead, this`mbufsz, this`base, this`content
      ensures TextRing() && content == old(content)[|text| + 1..] && base == old(base) + |text| + 1
    {
      ghost var was, c := content, 0;
      while mbufsz > 0
        invariant TextRing() && c <= |text| && content == was[c..] && base == old(base) + c
        decreases mbufsz
      {
        assert content[0] == was[c];
        assert c < |text| ==> was[c] == text[c];
        var ch := TakeChar();
        assert content == was[c + 1..];
        if ch == NUL { break; }
        c := c + 1;
      }
    }

    /** Copies a text and its terminator to the end of the text buffer, in two parts if it wraps around. */
    method CopyIn(str: string)
      requires TextRing() && |content| + |str| + 1 <= MBUFSIZE
      modifies mbuf, this`mtail, this`mbufsz, this`content
      ensures TextRing() && content == old(content) + str + [NUL]
    {
      var schars := |str| + 1;
      ghost var was, added, tail := mbuf[..], str + [NUL], mtail;
      if mtail + schars > MBUFSIZE {
        var split := MBUFSIZE - mtail;
        Copy(mtail, str, 0, split);
        Copy(0, str, split, schars);
        mtail := schars - split;
      } else {
        Copy(mtail, str, 0, schars);
        mtail := mtail + schars;
      }
      mbufsz := mbufsz + schars;
      forall j | 0 <= j < |added|
        ensures mbuf[Target(tail, j)] == added[j]
      {
        assert added[j] == (str + [NUL])[j];
      }
      Placed(was, mbuf[..], base, content, tail, added);
      content := content + added;
    }

    /** memcpy of characters from..to of a text with its terminator. */
    method Copy(at: nat, str: string, from: nat, to: nat)
      requires from <= to <= |str| + 1 && at + (to - from) <= mbuf.Length
      modifies mbuf
      ensures forall k | from <= k < to :: mbuf[at + (k - from)] == (str + [NUL])[k]
      ensures forall i | 0 <= i < mbuf.Length && !(at <= i < at + (to - from)) :: mbuf[i] == old(mbuf[i])
    {
      forall k | from <= k < to {
        mbuf[at + (k - from)] := if k < |str| then str[k] else NUL;
      }
    }

    /** add_msg: makes room for a text and appends it. */
    method AddMsg(str: string) returns (offset: nat)
      requires Valid() && NUL !in str && |str| + 1 <= MBUFSIZE
      modifies this`mhead, this`mtail, this`mbufsz, this`base, this`content, this`rhead, this`rbufsz, this`rbase,
        this`recs, this`live, mbuf
      ensures TextRing() && RecordRing() && Matched(recs, live, base) && MSlot(offset) == MSlot(base + |Text(live)|)
      ensures live == Kept(old(live), |str| + 1) && content == Text(live) + str + [NUL]
    {
      offset := mtail;
      MakeRoom(|str| + 1);
      CopyIn(str);
    }

    method MakeRoom(schars: nat)
      requires Valid() && schars <= MBUFSIZE
      modifies this`mhead, this`mbufsz, this`base, this`content, this`rhead, this`rbufsz, this`rbase, this`recs,
        this`live
      ensures Between(0) && live == Kept(old(live), schars) && |content| + schars <= MBUFSIZE
    {
      KeptFits(live, schars);
      if mbufsz + schars > MBUFSIZE {
        EvictMsg(mbufsz + schars - MBUFSIZE);
      }
    }

    /** evict_record and evict_oldest_msg, while the text of a new message is already in the buffer. */
    method DropOldest(ghost m: Message)
      requires TextRing() && RecordRing() && Matched(recs, live, base)
      requires live != [] && AllClean(live) && content == Text(live + [m])
      modifies this`mhead, this`mbufsz, this`base, this`content, this`rhead, this`rbufsz, this`rbase, this`recs,
        this`live
      ensures TextRing() && RecordRing() && Matched(recs, live, base)
      ensures live == old(live)[1..] && content == Text(live + [m])
      ensures base + |Text(live)| == old(base) + |Text(old(live))|
    {
      FirstText(live, m, content);
      MatchedDrop(recs, live, base);
      EvictRecord();
      EvictOldestMsg(live[0].text);
      live := live[1..];
    }

    method PushRecord(r: Record)
      requires RecordRing() && |recs| < RBUFSIZE
      modifies this`rtail, this`rbufsz, this`recs, rbuf
      ensures RecordRing() && recs == old(recs) + [r]
    {
      ghost var was := rbuf[..];
      rbuf[rtail] := r;
      RecordAppended(was, rbuf[..], rbase, recs, r);
      RSlotNext(rbase + |recs|);
      rtail := (rtail + 1) % RBUFSIZE;
      rbufsz := rbufsz + 1;
      recs := recs + [r];
    }

    /** add_record: drops the oldest message if the record buffer is full, and appends a record. */
    method AddRecord(offset: nat, level: int, ghost m: Message)
      requires TextRing() && RecordRing() && Matched(recs, live, base) && MSlot(offset) == MSlot(base + |Text(live)|)
      requires AllClean(live) && content == Text(live + [m]) && m.level == level
      modifies this`mhead, this`mbufsz, this`base, this`content, this`rhead, this`rtail, this`rbufsz, this`rbase,
        this`recs, this`live, rbuf
      ensures TextRing() && RecordRing() && Matched(recs, live, base) && content == Text(live)
      ensures live == (if |old(live)| == RBUFSIZE then old(live)[1..] else old(live)) + [m]
    {
      if rbufsz == RBUFSIZE {
        DropOldest(m);
      }
      MatchedAdd(recs, live, base, Record(level, offset), m);
      PushRecord(Record(level, offset));
      live := live + [m];
    }

    /** log: after it the log holds what Logged says, which ends with the new message. */
    method Log(level: int, str: string)
      requires Valid() && Logable(Message(level, str))
      modifies this, rbuf, mbuf
      ensures Valid() && live == Logged(old(live), Message(level, str))
      ensures history == old(history) + [Message(level, str)]
    {
      LoggedSuffix(live, Message(level, str), history);
      AddBoth(level, str);
      history := history + [Message(level, str)];
    }

    /** The text and then the record of a message. */
    method AddBoth(level: int, str: string)
      requires Valid() && Logable(Message(level, str))
      modifies this`mhead, this`mtail, this`mbufsz, this`base, this`content, mbuf
      modifies this`rhead, this`rtail, this`rbufsz, this`rbase, this`recs, rbuf, this`live
      ensures Sound() && live == Logged(old(live), Message(level, str))
    {
      ghost var m := Message(level, str);
      LoggedFits(live, m);
      var offset := AddMsg(str);
      TextAppend(live, m);
      AddRecord(offset, level, m);
    }

    /** Reading from a record's offset, modulo the buffer's size, gives its message's text and terminator. */
    lemma RecordLeadsToText(j: nat, k: nat)
      requires Valid() && j < |live| && k < live[j].Size()
      ensures rbuf[(rhead + j) % RBUFSIZE] == recs[j] && recs[j].level == live[j].level
      ensures mbuf[(recs[j].moffset + k) % MBUFSIZE] == (live[j].text + [NUL])[k]
    {
      RSlotSum(rhead, rbase, j);
      assert rbuf[RSlot(rbase + j)] == recs[j];
      SlotSum(recs[j].moffset, base + Start(live, j), k);
      TextAt(live, j, k);
      assert mbuf[MSlot(base + (Start(live, j) + k))] == content[Start(live, j) + k];
    }
  }

  lemma RSlotSum(p: nat, q: nat, k: nat)
    requires p == RSlot(q)
    ensures (p + k) % RBUFSIZE == RSlot(q + k)
  {
  }

  lemma SlotSum(p: nat, q: nat, k: nat)
    requires MSlot(p) == MSlot(q)
    ensures MSlot(p + k) == MSlot(q + k)
  {
  }

  /** Where character j after the held ones is written. */
  function Target(tail: nat, j: nat): nat { if tail + j < MBUFSIZE then tail + j else tail + j - MBUFSIZE }

  lemma TargetSlot(tail: nat, p: nat, j: nat)
    requires tail <= MBUFSIZE && MSlot(tail) == MSlot(p) && j < MBUFSIZE
    ensures MSlot(p + j) == Target(tail, j)
  {
  }

  /** Characters written from the tail on come after those that are held. */
  lemma Placed(was: seq<char>, ring: seq<char>, base: nat, content: string, tail: nat, added: string)
    requires Holds(was, base, content) && |ring| == MBUFSIZE && |content| + |added| <= MBUFSIZE && added != []
    requires tail <= MBUFSIZE && MSlot(tail) == MSlot(base + |content|)
    requires forall j | 0 <= j < |added| :: ring[Target(tail, j)] == added[j]
    requires forall i | 0 <= i < MBUFSIZE && !Within(tail, |added|, i) :: ring[i] == was[i]
    ensures Holds(ring, base, content + added)
    ensures MSlot(base + |content| + |added|) ==
      MSlot(if tail + |added| > MBUFSIZE then tail + |added| - MBUFSIZE else tail + |added|)
  {
    var end := base + |content|;
    forall k | 0 <= k < |content + added|
      ensures ring[MSlot(base + k)] == (content + added)[k]
    {
      if k < |content| {
        HeldApart(tail, base, |content|, |added|, k);
        assert ring[MSlot(base + k)] == was[MSlot(base + k)];
      } else {
        TargetSlot(tail, end, k - |content|);
      }
    }
    NewTail(tail, end, |added|);
  }

  /** Whether slot i is one of the n slots from the tail on. */
  predicate Within(tail: nat, n: nat, i: nat) { tail <= i < tail + n || i + MBUFSIZE < tail + n }

  lemma HeldApart(tail: nat, base: nat, held: nat, n: nat, k: nat)
    requires tail <= MBUFSIZE && MSlot(tail) == MSlot(base + held) && k < held && held + n <= MBUFSIZE
    ensures !Within(tail, n, MSlot(base + k))
  {
  }

  lemma NewTail(tail: nat, p: nat, n: nat)
    requires tail <= MBUFSIZE && MSlot(tail) == MSlot(p) && n <= MBUFSIZE
    ensures MSlot(p + n) == MSlot(if tail + n > MBUFSIZE then tail + n - MBUFSIZE else tail + n)
  {
  }
}
