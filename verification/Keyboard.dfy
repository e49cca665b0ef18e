/** The keyboard buffer in place: the interrupt's addkey, and the reader's calls when no interrupt comes between. */
module Keyboard {
  import opened KeyRing

  /** The keys in a ring at rest, oldest first. */
  function Keys(r: Ring): (keys: seq<Key>)
    requires |r.buf| == MAX_BUFSIZ
    ensures |keys| == r.size
  {
    seq(r.size, i requires 0 <= i < r.size => r.buf[Slot(r.head + i)])
  }

  ghost predicate AtRest(r: Ring) {
    |r.buf| == MAX_BUFSIZ && r.size <= MAX_BUFSIZ && r.head < MAX_BUFSIZ && r.tail == Slot(r.head + r.size)
  }

  lemma AddKeyKeys(r: Ring, key: Key)
    requires AtRest(r)
    ensures var next := AddKey(r, key);
      AtRest(next) && Keys(next) == if r.size == MAX_BUFSIZ then Keys(r) else Keys(r) + [key]
  {
    if r.size < MAX_BUFSIZ {
      SlotNext(r.head + r.size);
      var next := AddKey(r, key);
      forall i | 0 <= i <= r.size
        ensures Keys(next)[i] == (Keys(r) + [key])[i]
      {
        if i < r.size { SlotApart(r.head + i, r.head + r.size); }
      }
    }
  }

  /** Taking the oldest key out. */
  function DropKey(r: Ring): Ring
    requires r.size > 0
  {
    Ring(r.buf, if r.head + 1 == MAX_BUFSIZ then 0 else r.head + 1, r.tail, r.size - 1)
  }

  lemma DropKeyKeys(r: Ring)
    requires AtRest(r) && r.size > 0
    ensures AtRest(DropKey(r)) && Keys(DropKey(r)) == Keys(r)[1..] && Keys(r)[0] == r.buf[r.head]
  {
    var next := DropKey(r);
    SlotNext(r.head);
    SlotSum(next.head, r.head + 1, r.size - 1);
    forall i | 0 <= i < r.size - 1
      ensures Keys(next)[i] == Keys(r)[1..][i]
    {
      SlotSum(next.head, r.head + 1, i);
    }
    assert Slot(r.head + 0) == r.head;
  }

  /** The reader's steps from a call to its return, with no interrupt between them, take the oldest key. */
  lemma UninterruptedCall(s: State)
    requires s.reader == Checking(GetKey) && AtRest(s.ring)
    ensures s.ring.size == 0 ==> ReaderStep(s) == s.(reader := Idle)
    ensures s.ring.size > 0 ==>
      var s1 := ReaderStep(s); var s2 := ReaderStep(s1); var s3 := ReaderStep(s2); var s4 := ReaderStep(s3);
      var key := s.ring.buf[s.ring.head];
      ReaderStep(s4) ==
        s.(ring := DropKey(s.ring), reader := Idle, taken := s.taken + [key], takers := s.takers + [|s.calls| - 1],
           returned := s.returned + [Answer(|s.calls| - 1, key)])
  {
  }

  /** The position of the first key that has a character, or the number of keys. */
  function FirstChar(keys: seq<Key>): (n: nat)
    ensures n <= |keys| && (n < |keys| ==> keys[n].ch != 0) && forall i :: 0 <= i < n ==> keys[i].ch == 0
  {
    if keys == [] || keys[0].ch != 0 then 0 else 1 + FirstChar(keys[1..])
  }

  class KbState {
    const buf: array<Key>
    var bufHead: nat
    var bufTail: nat
    var bufSize: nat

    /** kb_init. */
    constructor ()
      ensures Valid() && Keys(View()) == [] && fresh(buf)
    {
      buf := new Key[MAX_BUFSIZ](_ => EMPTY);
      bufHead, bufTail, bufSize := 0, 0, 0;
    }

    ghost function View(): Ring
      reads this, buf
    {
      Ring(buf[..], bufHead, bufTail, bufSize)
    }

    ghost predicate Valid()
      reads this, buf
    {
      AtRest(View())
    }

    /** addkey. */
    method PutKey(key: Key)
      requires Valid()
      modifies this, buf
      ensures Valid() && View() == AddKey(old(View()), key)
      ensures Keys(View()) == if |old(Keys(View()))| == 32 then old(Keys(View())) else old(Keys(View())) + [key]
    {
      AddKeyKeys(View(), key);
      if bufSize == MAX_BUFSIZ { return; }
      buf[bufTail] := key;
      bufTail := bufTail + 1;
      if bufTail == MAX_BUFSIZ { bufTail := 0; }
      bufSize := bufSize + 1;
    }

    /** kb_getkey. */
    method KbGetKey() returns (ok: bool, key: Key)
      requires Valid()
      modifies this
      ensures Valid() && (ok <==> old(bufSize) > 0)
      ensures !ok ==> key == EMPTY && View() == old(View())
      ensures ok ==> key == old(Keys(View())[0]) && Keys(View()) == old(Keys(View()))[1..]
      ensures ok ==> bufSize == old(bufSize) - 1
    {
      if bufSize == 0 { return false, EMPTY; }
      DropKeyKeys(View());
      key := buf[bufHead];
      bufHead := bufHead + 1;
      if bufHead == MAX_BUFSIZ { bufHead := 0; }
      bufSize := bufSize - 1;
      ok := true;
    }

    /** kb_getchar: the first character in the buffer, which loses it and the keys before it; 0 if there is none. */
    method KbGetChar() returns (ch: int)
      requires Valid()
      modifies this
      ensures Valid()
      ensures var keys := old(Keys(View())); var n := FirstChar(keys);
        if n < |keys| then ch == keys[n].ch && Keys(View()) == keys[n + 1..] else ch == 0 && Keys(View()) == []
    {
      ghost var keys, n := Keys(View()), 0;
      while true
        invariant Valid() && n <= |keys| && Keys(View()) == keys[n..] && FirstChar(keys) == n + FirstChar(keys[n..])
        decreases bufSize
      {
        var ok, key := KbGetKey();
        if !ok { return 0; }
        assert keys[n..][1..] == keys[n + 1..];
        n := n + 1;
        if key.ch != 0 { return key.ch; }
      }
    }
  }
}
