/**
  The keyboard ring of drivers/keyboard.c.  The interrupt handler adds characters at any moment,
  also between two memory accesses of the consumer.
 */
module Keyboard {
  import opened CStrings
  import opened Rings

  const KB_BUFFER_SIZE: nat := 256

  /** How many characters lie between tail and head. */
  function Count(head: nat, tail: nat): (n: nat)
    requires head < KB_BUFFER_SIZE && tail < KB_BUFFER_SIZE
    ensures n < KB_BUFFER_SIZE && (n == 0 <==> head == tail)
  {
    if head >= tail then head - tail else head + KB_BUFFER_SIZE - tail
  }

  /** The slots from tail to head hold what was accepted and not yet taken. */
  ghost predicate Matches(buffer: seq<Byte>, head: nat, tail: nat, accepted: seq<Byte>, taken: nat) {
    && |buffer| == KB_BUFFER_SIZE && head < KB_BUFFER_SIZE && tail < KB_BUFFER_SIZE
    && |accepted| == taken + Count(head, tail) && NUL !in accepted
    && forall i: nat | i < Count(head, tail) :: buffer[Slot(KB_BUFFER_SIZE, tail, i)] == accepted[taken + i]
  }

  lemma AcceptKeeps(buffer: seq<Byte>, head: nat, tail: nat, accepted: seq<Byte>, taken: nat, c: Byte)
    requires Matches(buffer, head, tail, accepted, taken) && c != NUL && Slot(KB_BUFFER_SIZE, head, 1) != tail
    ensures Matches(buffer[head := c], Slot(KB_BUFFER_SIZE, head, 1), tail, accepted + [c], taken)
  {
    var n := Count(head, tail);
    assert Slot(KB_BUFFER_SIZE, tail, n) == head && Count(Slot(KB_BUFFER_SIZE, head, 1), tail) == n + 1;
    forall i: nat | i < n + 1
      ensures buffer[head := c][Slot(KB_BUFFER_SIZE, tail, i)] == (accepted + [c])[taken + i]
    {
      assert i < n ==> Slot(KB_BUFFER_SIZE, tail, i) != head;
    }
  }

  lemma TakeKeeps(buffer: seq<Byte>, head: nat, tail: nat, accepted: seq<Byte>, taken: nat)
    requires Matches(buffer, head, tail, accepted, taken) && taken < |accepted|
    ensures buffer[tail] == accepted[taken] && accepted[taken] != NUL
    ensures Matches(buffer, head, Slot(KB_BUFFER_SIZE, tail, 1), accepted, taken + 1)
  {
    assert buffer[Slot(KB_BUFFER_SIZE, tail, 0)] == accepted[taken] && accepted[taken] in accepted;
    var next, n := Slot(KB_BUFFER_SIZE, tail, 1), Count(head, tail);
    assert Count(head, next) == n - 1;
    forall i: nat | i < n - 1
      ensures buffer[Slot(KB_BUFFER_SIZE, next, i)] == accepted[taken + 1 + i]
    {
      assert Slot(KB_BUFFER_SIZE, next, i) == Slot(KB_BUFFER_SIZE, tail, i + 1);
    }
  }

  /** Characters typed, of which the handler keeps what fits behind `pending` others: the first ones. */
  function Kept(pending: nat, typed: seq<Byte>): seq<Byte>
    requires pending < KB_BUFFER_SIZE
  {
    if pending + |typed| < KB_BUFFER_SIZE then typed else typed[..KB_BUFFER_SIZE - 1 - pending]
  }

  /** A slice of what was accepted stays as more is accepted, and grows by the next character. */
  lemma OneMore(before: seq<Byte>, now: seq<Byte>, from: nat, to: nat)
    requires before <= now && from <= to <= |before|
    ensures now[from..to] == before[from..to]
    ensures to < |now| ==> now[from..to + 1] == before[from..to] + [now[to]]
  {
  }

  class Ring {
    const buffer: array<Byte>
    var head: nat
    var tail: nat

    /** Everything accepted so far, and how much of it has been taken out. */
    ghost var accepted: seq<Byte>
    ghost var taken: nat

    ghost predicate Valid()
      reads this, buffer
    {
      && buffer.Length == KB_BUFFER_SIZE && head < KB_BUFFER_SIZE && tail < KB_BUFFER_SIZE
      && Matches(buffer[..], head, tail, accepted, taken)
    }

    /** The indexes are equal exactly if everything accepted has been taken. */
    lemma Empty()
      requires Valid()
      ensures taken <= |accepted| && (head == tail <==> taken == |accepted|)
      ensures head < KB_BUFFER_SIZE && tail < KB_BUFFER_SIZE == buffer.Length
      ensures |accepted| == taken + Pending()
    {
    }

    /** The next character lies at the tail. */
    lemma Front()
      requires Valid() && taken < |accepted|
      ensures tail < buffer.Length && buffer[tail] == accepted[taken] && accepted[taken] != NUL
    {
      TakeKeeps(buffer[..], head, tail, accepted, taken);
    }

    /** The store that takes the front character out. */
    method Advance(t: nat)
      requires Valid() && t == tail && taken < |accepted|
      modifies this`tail, this`taken
      ensures Valid() && taken == old(taken) + 1
    {
      TakeKeeps(buffer[..], head, tail, accepted, taken);
      SlotIsRemainder(KB_BUFFER_SIZE, t, 1);
      tail := (t + 1) % KB_BUFFER_SIZE;
      taken := taken + 1;
    }

    function Pending(): nat
      requires head < KB_BUFFER_SIZE && tail < KB_BUFFER_SIZE
      reads this
    {
      Count(head, tail)
    }

    constructor ()
      ensures Valid() && accepted == [] && taken == 0 && fresh(buffer)
    {
      buffer := new Byte[KB_BUFFER_SIZE];
      head, tail := 0, 0;
      accepted, taken := [], 0;
    }

    /** The end of `process_scancode`: a character is dropped only if 255 are pending. */
    method Accept(ascii: Byte)
      requires Valid()
      modifies this`head, this`accepted, buffer
      ensures Valid()
      ensures accepted == if ascii != NUL && |old(accepted)| - taken < 255 then old(accepted) + [ascii] else old(accepted)
    {
      if ascii != NUL {
        SlotIsRemainder(KB_BUFFER_SIZE, head, 1);
        var nextHead := (head + 1) % KB_BUFFER_SIZE;
        if nextHead != tail {
          AcceptKeeps(buffer[..], head, tail, accepted, taken, ascii);
          buffer[head] := ascii;
          head := nextHead;
          accepted := accepted + [ascii];
        }
      }
    }

    /** One run of the handler, for the characters typed since the last one. */
    method Interrupt(typed: seq<Byte>)
      requires Valid() && NUL !in typed
      modifies this`head, this`accepted, buffer
      ensures Valid() && accepted == old(accepted) + Kept(old(Pending()), typed) && old(accepted) <= accepted
      ensures typed == [] ==> accepted == old(accepted)
      ensures var room := 255 - (|old(accepted)| - taken);
              0 <= room && accepted == old(accepted) + if |typed| <= room then typed else typed[..room]
    {
      hide Matches;
      Empty();
      for i := 0 to |typed|
        invariant Valid() && accepted == old(accepted) + Kept(old(Pending()), typed[..i])
      {
        Accept(typed[i]);
        Empty();
        assert typed[..i + 1] == typed[..i] + [typed[i]];
      }
      assert typed[..|typed|] == typed;
    }

    /** The same, as far as the consumer needs to know. */
    method Fire(typed: seq<Byte>)
      requires Valid() && NUL !in typed
      modifies this`head, this`accepted, buffer
      ensures Valid() && old(accepted) <= accepted && (typed == [] ==> accepted == old(accepted))
    {
      Interrupt(typed);
    }

    /** `keyboard_has_char` with interrupts off */
    method HasChar() returns (r: bool)
      requires Valid()
      ensures r <==> |accepted| > taken
    {
      r := head != tail;
    }

    /**
      `keyboard_get_char`, interrupted before and after every access to the shared variables: the
      next character in order, or 0 if there was none when the two indexes were compared.
     */
    method GetChar(typed: seq<seq<Byte>>) returns (c: Byte)
      requires Valid() && |typed| == 7 && forall t | t in typed :: NUL !in t
      modifies this, buffer
      ensures Valid() && old(accepted) <= accepted
      ensures (forall t | t in typed :: t == []) ==> accepted == old(accepted)
      ensures c != NUL ==> taken == old(taken) + 1 <= |accepted| && c == accepted[old(taken)]
      ensures c == NUL ==> taken == old(taken) && |old(accepted)| == taken
    {
      hide Ring.Valid;
      hide Kept;
      assert forall k | 0 <= k < 7 :: typed[k] in typed;
      Empty();
      Fire(typed[0]);
      Empty();
      var h := head;
      Fire(typed[1]);
      var t := tail;
      Fire(typed[2]);
      if h == t {
        return NUL;
      }
      var i := tail;
      Fire(typed[3]);
      Front();
      c := buffer[i];
      Fire(typed[4]);
      var t' := tail;
      Fire(typed[5]);
      Advance(t');
      Fire(typed[6]);
    }

    /**
      Any number of calls, each interrupted between all its accesses: what they return is what was
      accepted, in order, nothing twice and nothing left out.
     */
    method GetChars(calls: seq<seq<seq<Byte>>>) returns (returned: seq<Byte>)
      requires Valid() && forall typed | typed in calls :: |typed| == 7 && forall t | t in typed :: NUL !in t
      modifies this, buffer
      ensures Valid() && old(accepted) <= accepted && old(taken) <= taken <= |accepted|
      ensures returned == accepted[old(taken)..taken]
    {
      hide Ring.Valid;
      Empty();
      returned := [];
      for k := 0 to |calls|
        invariant Valid() && old(accepted) <= accepted && old(taken) <= taken <= |accepted|
        invariant returned == accepted[old(taken)..taken]
      {
        assert calls[k] in calls;
        ghost var before := accepted;
        var c := GetChar(calls[k]);
        Empty();
        OneMore(before, accepted, old(taken), old(taken) + |returned|);
        if c != NUL {
          returned := returned + [c];
        }
      }
    }
  }
}
