/** The SPE mailboxes of spebase/mbox.c.

    A mailbox is a bounded FIFO between the SPE and the PPE threads.  Everything that
    happens to it concurrently is a script: which words other parties put and take at each
    access of the calling thread, and what poll(), read() and write() answer.  A call that
    comes to the end of its script is still waiting.  The PPE side goes through the mapped
    problem state area, one register access at a time and under a lock, or through the
    spufs files. */
module Mailboxes {
  import opened Bytes

  /** A word and the party that put it or took it. */
  datatype Entry = Entry(who: nat, word: Word)

  function Tagged(who: nat, ws: seq<Word>): (es: seq<Entry>)
    ensures |es| == |ws|
  {
    seq(|ws|, i requires 0 <= i < |ws| => Entry(who, ws[i]))
  }

  function WordsOf(es: seq<Entry>): (ws: seq<Word>)
    ensures |ws| == |es|
  {
    seq(|es|, i requires 0 <= i < |es| => es[i].word)
  }

  /** The words of one party, in order. */
  function By(who: nat, es: seq<Entry>): seq<Word> {
    if |es| == 0 then []
    else
      var last := es[|es| - 1];
      By(who, es[..|es| - 1]) + (if last.who == who then [last.word] else [])
  }

  lemma {:induction false} ByAppend(who: nat, a: seq<Entry>, b: seq<Entry>)
    ensures By(who, a + b) == By(who, a) + By(who, b)
    decreases |b|
  {
    if |b| == 0 {
      assert a + b == a;
    } else {
      assert (a + b)[..|a + b| - 1] == a + b[..|b| - 1];
      ByAppend(who, a, b[..|b| - 1]);
    }
  }

  lemma {:induction false} ByTagged(who: nat, ws: seq<Word>)
    ensures By(who, Tagged(who, ws)) == ws
  {
    if |ws| > 0 {
      assert Tagged(who, ws)[..|ws| - 1] == Tagged(who, ws[..|ws| - 1]);
      ByTagged(who, ws[..|ws| - 1]);
    }
  }

  lemma ByPlus(who: nat, a: seq<Entry>, e: Entry)
    ensures By(who, a + [e]) == By(who, a) + (if e.who == who then [e.word] else [])
  {
    assert (a + [e])[..|a|] == a;
  }

  lemma ByMore(who: nat, a: seq<Entry>, ws: seq<Word>)
    ensures By(who, a + Tagged(who, ws)) == By(who, a) + ws
  {
    ByAppend(who, a, Tagged(who, ws));
    ByTagged(who, ws);
  }

  lemma TaggedMore(who: nat, before: seq<Entry>, data: seq<Word>, from: nat, n: nat)
    requires from + n < |data|
    ensures before + Tagged(who, data[from..from + n + 1]) ==
      before + Tagged(who, data[from..from + n]) + [Entry(who, data[from + n])]
  {
    assert data[from..from + n + 1] == data[from..from + n] + [data[from + n]];
  }

  lemma TaggedNone(who: nat, before: seq<Entry>, data: seq<Word>, from: nat)
    requires from <= |data|
    ensures before + Tagged(who, data[from..from]) == before
  {}

  lemma TaggedMany(who: nat, before: seq<Entry>, data: seq<Word>, from: nat, n: nat, m: nat)
    requires from + n + m <= |data|
    ensures before + Tagged(who, data[from..from + n + m]) ==
      before + Tagged(who, data[from..from + n]) + Tagged(who, data[from + n..from + n + m])
  {
    assert data[from..from + n + m] == data[from..from + n] + data[from + n..from + n + m];
  }

  lemma MoreRead(mid: seq<Word>, after: seq<Word>, done: nat, n: nat)
    requires done + n <= |mid| == |after| && forall j :: 0 <= j < done ==> after[j] == mid[j]
    ensures mid[..done] + after[done..done + n] == after[..done + n]
  {}

  lemma OneMore(before: seq<Word>, data: seq<Word>, from: nat, n: nat)
    requires from + n < |data|
    ensures before + data[from..from + n + 1] == before + data[from..from + n] + [data[from + n]]
  {}

  /** What has been taken out is what was put in first; and of that the words of each party
      are the first words that party put in. */
  lemma FirstInFirstOut(who: nat, put: seq<Entry>, got: seq<Entry>, queue: seq<Word>)
    requires WordsOf(put) == WordsOf(got) + queue
    ensures |got| <= |put| && WordsOf(put[..|got|]) == WordsOf(got)
    ensures By(who, put[..|got|]) <= By(who, put)
    ensures queue == [] ==> WordsOf(got) == WordsOf(put)
  {
    assert |put| == |WordsOf(got) + queue|;
    forall i | 0 <= i < |got| ensures put[i].word == got[i].word {
      assert WordsOf(put)[i] == WordsOf(got)[i];
    }
    ByAppend(who, put[..|got|], put[|got|..]);
    assert put == put[..|got|] + put[|got|..];
  }

  /** What some party does to a mailbox. */
  datatype Move = Puts(who: nat, word: Word) | Takes(who: nat)

  class Mailbox {
    const capacity: nat
    const inbound: bool              // the PPE puts and the SPE takes
    var queue: seq<Word>
    var locked: bool                 // the context lock of the calling thread
    ghost var put: seq<Entry>        // everything ever put in and taken out
    ghost var got: seq<Entry>

    ghost predicate Valid()
      reads this
    {
      && |queue| <= capacity
      && WordsOf(put) == WordsOf(got) + queue
    }

    constructor (capacity: nat, inbound: bool)
      ensures Valid() && this.capacity == capacity && this.inbound == inbound
      ensures queue == [] && put == [] && got == [] && !locked
    {
      this.capacity, this.inbound := capacity, inbound;
      queue, locked, put, got := [], false, [], [];
    }

    /** A store to SPU_In_Mbox, or to the outbound mailbox by the SPE: it must find room. */
    method Put(who: nat, w: Word)
      requires Valid() && |queue| < capacity
      modifies this
      ensures Valid() && locked == old(locked)
      ensures queue == old(queue) + [w] && put == old(put) + [Entry(who, w)] && got == old(got)
    {
      put := put + [Entry(who, w)];
      queue := queue + [w];
      assert WordsOf(put) == old(WordsOf(put)) + [w];
    }

    /** A load from SPU_Out_Mbox, or from the inbound mailbox by the SPE: it must find a word. */
    method Get(who: nat) returns (w: Word)
      requires Valid() && |queue| > 0
      modifies this
      ensures Valid() && locked == old(locked)
      ensures old(queue) == [w] + queue && got == old(got) + [Entry(who, w)] && put == old(put)
    {
      w := queue[0];
      got := got + [Entry(who, w)];
      queue := queue[1..];
      assert WordsOf(got) == old(WordsOf(got)) + [w];
    }

    /** The lock keeps the other PPE threads away from their side of the mailbox. */
    method Interfere(me: nat, moves: seq<Move>)
      requires Valid()
      modifies this
      ensures Valid() && locked == old(locked)
      ensures old(put) <= put && old(got) <= got
      ensures By(me, put) == old(By(me, put)) && By(me, got) == old(By(me, got))
      ensures locked && inbound ==> put == old(put) && |queue| <= |old(queue)|
      ensures locked && !inbound ==> got == old(got) && |queue| >= |old(queue)|
    {
      var i := 0;
      while i < |moves|
        invariant Valid() && locked == old(locked)
        invariant old(put) <= put && old(got) <= got
        invariant By(me, put) == old(By(me, put)) && By(me, got) == old(By(me, got))
        invariant locked && inbound ==> put == old(put) && |queue| <= |old(queue)|
        invariant locked && !inbound ==> got == old(got) && |queue| >= |old(queue)|
      {
        match moves[i] {
          case Puts(who, w) =>
            if who != me && |queue| < capacity && !(locked && inbound) {
              ByPlus(me, put, Entry(who, w));
              Put(who, w);
            }
          case Takes(who) =>
            if who != me && |queue| > 0 && !(locked && !inbound) {
              ByPlus(me, got, Entry(who, queue[0]));
              var _ := Get(who);
            }
        }
        i := i + 1;
      }
    }
  }

  datatype Buffer = Null | At(words: seq<Word>)
  datatype Behavior = AllBlocking | AnyBlocking | AnyNonBlocking | Unknown
  datatype Errno = EINVAL | EIO | EAGAIN | OtherError(code: int)
  datatype Outcome = Returned(n: int) | Failed(errno: Errno) | Waiting

  /** What the kernel answers to a read or write of a mailbox file: an error, or at most so
      many whole words.  `next` is what the SPE puts if a read has to wait for it. */
  datatype Answer = Moved(words: nat, next: Word) | Refused(errno: Errno)
  datatype Poll = Ready | PollFails(errno: Errno)

  // ---------- what a call has used of a script ----------

  /** A script is used up from the front. */
  ghost predicate UsedUp<T>(before: seq<T>, after: seq<T>) {
    |after| <= |before| && before[|before| - |after|..] == after
  }

  ghost function Used<T>(before: seq<T>, after: seq<T>): (u: seq<T>)
    requires |after| <= |before|
  {
    before[..|before| - |after|]
  }

  lemma UsedNone<T>(before: seq<T>)
    ensures UsedUp(before, before) && Used(before, before) == []
  {}

  lemma UsedOne<T>(before: seq<T>, after: seq<T>)
    requires UsedUp(before, after) && |after| > 0
    ensures UsedUp(before, after[1..]) && Used(before, after[1..]) == Used(before, after) + [after[0]]
  {
    var n := |before| - |after|;
    assert before[n] == before[n..][0] && before[n + 1..] == before[n..][1..];
  }

  ghost predicate AllReady(u: seq<Poll>) { forall i :: 0 <= i < |u| ==> u[i].Ready? }
  ghost predicate AllMoved(u: seq<Answer>) { forall i :: 0 <= i < |u| ==> u[i].Moved? }

  /** How poll() and the outcome of a call go together: the call goes on while there is room
      to wait for, fails with the poll that fails, and waits only for a poll without an
      answer. */
  ghost predicate Polled(before: seq<Poll>, after: seq<Poll>, r: Outcome) {
    UsedUp(before, after) &&
    var u := Used(before, after);
    match r
    case Returned(_) => AllReady(u)
    case Waiting => after == [] && AllReady(u)
    case Failed(e) => |u| > 0 && u[|u| - 1] == PollFails(e) && AllReady(u[..|u| - 1])
  }

  /** The most words some answers of the kernel move: one that blocks moves at least one. */
  ghost function Most(u: seq<Answer>): nat {
    if |u| == 0 then 0
    else
      var a := u[|u| - 1];
      Most(u[..|u| - 1]) + (if a.Refused? then 0 else if a.words < 1 then 1 else a.words)
  }

  lemma MostMore(u: seq<Answer>, a: Answer)
    ensures Most(u + [a]) == Most(u) + if a.Refused? then 0 else if a.words < 1 then 1 else a.words
  {
    assert (u + [a])[..|u|] == u;
  }

  /** How a blocking read() or write(), repeated or not, and the outcome of a call go
      together: each answer used moves a word at least, a refusal ends the call, and the
      call waits only for an answer that does not come. */
  ghost predicate Answered(before: seq<Answer>, after: seq<Answer>, r: Outcome, done: nat) {
    UsedUp(before, after) &&
    var u := Used(before, after);
    && done <= Most(u)
    && match r
       case Returned(_) => AllMoved(u) && |u| <= done
       case Waiting => after == [] && AllMoved(u) && |u| <= done
       case Failed(_) => |u| > 0 && u[|u| - 1].Refused? && AllMoved(u[..|u| - 1]) && |u| - 1 <= done
  }

  lemma AllButLast(before: seq<Poll>, after: seq<Poll>)
    requires UsedUp(before, after) && |Used(before, after)| > 0
    requires exists rest, p :: Used(before, after) == rest + [p] && AllReady(rest)
    ensures AllReady(Used(before, after)[..|Used(before, after)| - 1])
  {
    var rest, p :| Used(before, after) == rest + [p] && AllReady(rest);
    assert (rest + [p])[..|rest|] == rest;
  }

  /** A call that is not done yet has been answered with words moved. */
  ghost predicate Going(before: seq<Answer>, after: seq<Answer>, done: nat) {
    Answered(before, after, Returned(0), done)
  }

  /** One more answer, if there is one. */
  lemma OneAnswer(before: seq<Answer>, mid: seq<Answer>, after: seq<Answer>, waits: bool, errno: Errno, done: nat,
                  n: nat)
    requires Going(before, mid, done) && Context.Taken(mid, after, true, waits, errno, n)
    ensures waits ==> Answered(before, after, Waiting, done + n)
    ensures !waits && n == 0 ==> forall e :: Answered(before, after, Failed(e), done + n)
    ensures n > 0 ==> !waits && |after| < |mid| && Going(before, after, done + n)
  {
    if |mid| > 0 {
      UsedOne(before, mid);
      var u := Used(before, mid);
      MostMore(u, mid[0]);
      assert (u + [mid[0]])[..|u|] == u;
    }
  }

  /** A call that makes do with one answer. */
  lemma FirstAnswer(before: seq<Answer>, after: seq<Answer>, waits: bool, errno: Errno, n: nat)
    requires Context.Taken(before, after, true, waits, errno, n)
    ensures waits ==> Answered(before, after, Waiting, 0) && n == 0
    ensures !waits && n == 0 ==> before != [] && before[0].Refused? && forall e :: Answered(before, after, Failed(e), 0)
    ensures n > 0 ==> !waits && forall k :: Answered(before, after, Returned(k), n)
  {
    UsedNone(before);
    OneAnswer(before, before, after, waits, errno, 0, n);
  }

  /** A call that fails has delivered something exactly if the first answer moved words. */
  lemma FirstMoved(before: seq<Answer>, after: seq<Answer>, r: Outcome, done: nat)
    requires Answered(before, after, r, done) && r.Failed?
    ensures done > 0 <==> Moves(before)
  {
    var u := Used(before, after);
    assert u[0] == before[0];
    if |u| > 1 {
      assert u[..|u| - 1][0] == u[0];
    } else {
      assert u == [] + [u[0]];
      MostMore([], u[0]);
    }
  }

  /** A call that got an answer with words first has delivered some of them. */
  lemma Delivered(before: seq<Answer>, after: seq<Answer>, r: Outcome, done: nat)
    requires Answered(before, after, r, done) && Moves(before) && (r.Returned? ==> done > 0)
    ensures done > 0
  {
    if r.Failed? { FirstMoved(before, after, r, done); }
  }

  lemma Front(ws: seq<Word>, count: nat, n: nat)
    requires n <= count <= |ws|
    ensures ws[..count][..n] == ws[..n] && ws[..count][0..0 + n] == ws[..n] && ws[..0] == []
  {}

  /** The first answer is to move words. */
  predicate Moves(answers: seq<Answer>) { |answers| > 0 && answers[0].Moved? }

  /** The first answer is to refuse for another reason than that nothing can be done now. */
  predicate Refuses(answers: seq<Answer>) {
    |answers| > 0 && answers[0].Refused? && answers[0].errno != EAGAIN
  }

  /** The party on the other side of every mailbox. */
  const SPE: nat := 0

  /** A context, as far as its mailboxes go. */
  class Context {
    const mapped: bool                  // SPE_MAP_PS
    const inMbox: Mailbox
    const outMbox: Mailbox
    const intrMbox: Mailbox
    var others: seq<seq<Move>>          // what the others do before each access
    var polls: seq<Poll>                // what poll() answers
    var answers: seq<Answer>            // what read() and write() answer
    ghost var foundFull: bool           // the last look at inMbox, with no poll() since, found no room

    ghost predicate Sound()
      reads this, inMbox, outMbox, intrMbox
    {
      && inMbox != outMbox && inMbox != intrMbox && outMbox != intrMbox
      && inMbox.Valid() && outMbox.Valid() && intrMbox.Valid()
      && inMbox.inbound && !outMbox.inbound && !intrMbox.inbound
      && 0 < inMbox.capacity < 256 && 0 < outMbox.capacity < 256 && 0 < intrMbox.capacity < 256
    }

    ghost predicate Valid()
      reads this, inMbox, outMbox, intrMbox
    {
      Sound() && !inMbox.locked && !outMbox.locked && !intrMbox.locked
    }

    constructor (mapped: bool, others: seq<seq<Move>>, polls: seq<Poll>, answers: seq<Answer>)
      ensures Valid() && fresh(inMbox) && fresh(outMbox) && fresh(intrMbox)
      ensures this.mapped == mapped && inMbox.capacity == 4 && outMbox.capacity == 1 && intrMbox.capacity == 1
      ensures this.others == others && this.polls == polls && this.answers == answers
      ensures inMbox.queue == outMbox.queue == intrMbox.queue == [] && inMbox.put == []
    {
      var i := new Mailbox(4, true);
      var o := new Mailbox(1, false);
      var x := new Mailbox(1, false);
      this.mapped, this.others, this.polls, this.answers := mapped, others, polls, answers;
      inMbox, outMbox, intrMbox := i, o, x;
      foundFull := false;
    }

    method Meanwhile(m: Mailbox, me: nat)
      requires m.Valid()
      modifies m, `others
      ensures m.Valid() && m.locked == old(m.locked)
      ensures old(m.put) <= m.put && old(m.got) <= m.got
      ensures By(me, m.put) == old(By(me, m.put)) && By(me, m.got) == old(By(me, m.got))
      ensures m.locked && m.inbound ==> m.put == old(m.put) && |m.queue| <= |old(m.queue)|
      ensures m.locked && !m.inbound ==> m.got == old(m.got) && |m.queue| >= |old(m.queue)|
      ensures old(others) == [] ==>
        others == [] && m.put == old(m.put) && m.got == old(m.got) && m.queue == old(m.queue)
    {
      if |others| > 0 {
        m.Interfere(me, others[0]);
        others := others[1..];
      }
    }

    /** The register SPU_Mbox_Stat: entries to read, room to write, interrupt entries. */
    function Stat(): (s: nat)
      requires Sound()
      reads this, inMbox, outMbox, intrMbox
      ensures s % 256 == |outMbox.queue| && (s / 256) % 256 == inMbox.capacity - |inMbox.queue|
    {
      |intrMbox.queue| * 65536 + (inMbox.capacity - |inMbox.queue|) * 256 + |outMbox.queue|
    }

    // ---------- the mapped problem state area ----------

    /** Line 99 */
    method LookForRoom() returns (space: nat)
      requires Sound()
      modifies `foundFull
      ensures space == inMbox.capacity - |inMbox.queue| && (foundFull <==> space == 0)
    {
      space := (Stat() / 256) % 256;
      foundFull := space == 0;
    }

    /** Lines 102-105: as many stores as there was room for when it was looked up */
    method StoreWords(me: nat, data: seq<Word>, from: nat, space: nat)
      requires Sound() && inMbox.locked && from + space <= |data| && |inMbox.queue| + space <= inMbox.capacity
      modifies inMbox, `others
      ensures Sound() && inMbox.locked
      ensures inMbox.put == old(inMbox.put) + Tagged(me, data[from..from + space])
      ensures old(inMbox.got) <= inMbox.got && By(me, inMbox.got) == old(By(me, inMbox.got))
      ensures |inMbox.queue| <= |old(inMbox.queue)| + space
      ensures old(others) == [] ==>
        others == [] && inMbox.got == old(inMbox.got) && |inMbox.queue| == |old(inMbox.queue)| + space
    {
      hide Tagged, WordsOf, By;
      var n: nat := 0;
      while n < space
        invariant Sound() && inMbox.locked && n <= space
        invariant |inMbox.queue| <= |old(inMbox.queue)| + n
        invariant inMbox.put == old(inMbox.put) + Tagged(me, data[from..from + n])
        invariant old(inMbox.got) <= inMbox.got && By(me, inMbox.got) == old(By(me, inMbox.got))
        invariant old(others) == [] ==>
          others == [] && inMbox.got == old(inMbox.got) && |inMbox.queue| == |old(inMbox.queue)| + n
      {
        Meanwhile(inMbox, me);
        TaggedMore(me, old(inMbox.put), data, from, n);
        inMbox.Put(me, data[from + n]);
        n := n + 1;
      }
    }

    /** _base_spe_in_mbox_write_ps on data + from */
    method InWritePs(me: nat, data: seq<Word>, from: nat) returns (total: nat)
      requires Valid() && from <= |data|
      modifies inMbox, `others, `foundFull
      ensures Valid() && total <= |data| - from && (total < |data| - from ==> foundFull)
      ensures inMbox.put == old(inMbox.put) + Tagged(me, data[from..from + total])
      ensures old(inMbox.got) <= inMbox.got && By(me, inMbox.got) == old(By(me, inMbox.got))
      ensures total == |data| - from || |old(inMbox.queue)| + total >= inMbox.capacity
      ensures old(others) == [] ==>
        others == [] && inMbox.got == old(inMbox.got) && |inMbox.queue| == |old(inMbox.queue)| + total
    {
      hide Tagged, WordsOf, By;
      var count := |data| - from;
      inMbox.locked := true;
      total := 0;
      while total < count
        invariant Sound() && inMbox.locked && total <= count
        invariant !outMbox.locked && !intrMbox.locked
        invariant inMbox.put == old(inMbox.put) + Tagged(me, data[from..from + total])
        invariant old(inMbox.got) <= inMbox.got && By(me, inMbox.got) == old(By(me, inMbox.got))
        invariant |inMbox.queue| <= |old(inMbox.queue)| + total
        invariant old(others) == [] ==>
          others == [] && inMbox.got == old(inMbox.got) && |inMbox.queue| == |old(inMbox.queue)| + total
      {
        Meanwhile(inMbox, me);
        var space := LookForRoom();
        if space == 0 { break; }
        if space > count - total { space := count - total; }
        StoreWords(me, data, from + total, space);
        TaggedMany(me, old(inMbox.put), data, from, total, space);
        total := total + space;
      }
      inMbox.locked := false;
    }

    /** Lines 49-52: as many loads as there were entries when they were counted */
    method LoadWords(me: nat, mboxData: array<Word>, from: nat, entries: nat)
      requires Sound() && outMbox.locked && from + entries <= mboxData.Length && entries <= |outMbox.queue|
      modifies outMbox, mboxData, `others
      ensures Sound() && outMbox.locked
      ensures outMbox.got == old(outMbox.got) + Tagged(me, mboxData[..][from..from + entries])
      ensures forall j :: 0 <= j < mboxData.Length && !(from <= j < from + entries) ==> mboxData[j] == old(mboxData[j])
      ensures old(outMbox.put) <= outMbox.put && By(me, outMbox.put) == old(By(me, outMbox.put))
      ensures |outMbox.queue| + entries >= |old(outMbox.queue)|
    {
      hide Tagged, WordsOf, By;
      var n: nat := 0;
      TaggedNone(me, old(outMbox.got), mboxData[..], from);
      while n < entries
        invariant Sound() && outMbox.locked && n <= entries
        invariant |outMbox.queue| + n >= |old(outMbox.queue)|
        invariant outMbox.got == old(outMbox.got) + Tagged(me, mboxData[..][from..from + n])
        invariant forall j :: 0 <= j < mboxData.Length && !(from <= j < from + n) ==> mboxData[j] == old(mboxData[j])
        invariant old(outMbox.put) <= outMbox.put && By(me, outMbox.put) == old(By(me, outMbox.put))
      {
        Meanwhile(outMbox, me);
        ghost var before := mboxData[..][from..from + n];
        var w := outMbox.Get(me);
        mboxData[from + n] := w;
        assert mboxData[..][from..from + n] == before;
        TaggedMore(me, old(outMbox.got), mboxData[..], from, n);
        n := n + 1;
      }
    }

    /** _base_spe_out_mbox_read_ps into mbox_data */
    method OutReadPs(me: nat, mboxData: array<Word>, count: nat) returns (total: nat)
      requires Valid() && count <= mboxData.Length
      modifies outMbox, mboxData, `others
      ensures Valid() && total <= count
      ensures outMbox.got == old(outMbox.got) + Tagged(me, mboxData[..total])
      ensures forall j :: total <= j < mboxData.Length ==> mboxData[j] == old(mboxData[j])
      ensures old(outMbox.put) <= outMbox.put && By(me, outMbox.put) == old(By(me, outMbox.put))
      ensures total == count || |old(outMbox.queue)| <= total
    {
      hide Tagged, WordsOf, By;
      outMbox.locked := true;
      total := 0;
      while total < count
        invariant Sound() && outMbox.locked && total <= count
        invariant !inMbox.locked && !intrMbox.locked
        invariant outMbox.got == old(outMbox.got) + Tagged(me, mboxData[..total])
        invariant forall j :: total <= j < mboxData.Length ==> mboxData[j] == old(mboxData[j])
        invariant old(outMbox.put) <= outMbox.put && By(me, outMbox.put) == old(By(me, outMbox.put))
        invariant |outMbox.queue| + total >= |old(outMbox.queue)|
      {
        Meanwhile(outMbox, me);
        var entries := Stat() % 256;
        if entries == 0 { break; }
        if entries > count - total { entries := count - total; }
        ghost var first := mboxData[..total];
        LoadWords(me, mboxData, total, entries);
        assert mboxData[..total] == first && mboxData[..][0..total] == first;
        assert mboxData[..][0..total + entries] == mboxData[..total + entries];
        TaggedMany(me, old(outMbox.got), mboxData[..], 0, total, entries);
        total := total + entries;
      }
      outMbox.locked := false;
    }

    // ---------- the spufs files ----------

    /** One call of read() or write() and the script. */
    static ghost predicate Taken(before: seq<Answer>, after: seq<Answer>, blocking: bool, waits: bool, errno: Errno,
                                 done: nat) {
      if before == [] then after == [] && waits == blocking && done == 0 && errno == EAGAIN
      else
        && after == before[1..] && !waits
        && match before[0]
           case Refused(e) => done == 0 && errno == e
           case Moved(words, _) =>
             && done <= (if words < 1 then 1 else words)
             && (done == 0 ==> !blocking && errno == EAGAIN)
    }

    /** One word into the mailbox, for whose room a blocking write waits. */
    method KernelPut(me: nat, w: Word, wait: bool) returns (ok: bool)
      requires Valid() && me != SPE
      modifies inMbox, `others
      ensures Valid() && old(inMbox.put) <= inMbox.put && old(inMbox.got) <= inMbox.got
      ensures By(me, inMbox.put) == old(By(me, inMbox.put)) + (if ok then [w] else [])
      ensures wait ==> ok
      ensures old(others) == [] && |old(inMbox.queue)| < inMbox.capacity ==> ok
    {
      hide Tagged, WordsOf, By;
      Meanwhile(inMbox, me);
      if |inMbox.queue| == inMbox.capacity {
        if !wait { return false; }
        var _ := inMbox.Get(SPE);
      }
      ByPlus(me, inMbox.put, Entry(me, w));
      inMbox.Put(me, w);
      ok := true;
    }

    /** write() of data[from..] to wbox or, not blocking, to wbox_nb; rc counts bytes */
    method KernelWrite(me: nat, data: seq<Word>, from: nat, blocking: bool)
      returns (rc: int, errno: Errno, waits: bool, ghost done: nat)
      requires Valid() && me != SPE && from < |data|
      modifies inMbox, `others, `answers
      ensures Valid() && old(inMbox.put) <= inMbox.put && old(inMbox.got) <= inMbox.got
      ensures done <= |data| - from && By(me, inMbox.put) == old(By(me, inMbox.put)) + data[from..from + done]
      ensures rc == (if done > 0 then 4 * done else -1)
      ensures Taken(old(answers), answers, blocking, waits, errno, done)
      ensures old(others) == [] && Moves(old(answers)) && |old(inMbox.queue)| < inMbox.capacity ==> done > 0
    {
      hide Tagged, WordsOf, By;
      done, waits, rc, errno := 0, false, -1, EAGAIN;
      if |answers| == 0 {
        waits := blocking;
        return;
      }
      var answer := answers[0];
      answers := answers[1..];
      match answer {
        case Refused(e) => errno := e;
        case Moved(words, _) =>
          var i := 0;
          while i < |data| - from && (i < words || i == 0)
            invariant i == done <= |data| - from && answers == old(answers)[1..]
            invariant Valid() && old(inMbox.put) <= inMbox.put && old(inMbox.got) <= inMbox.got
            invariant By(me, inMbox.put) == old(By(me, inMbox.put)) + data[from..from + i]
            invariant i <= words || i == 1
            invariant i == 0 ==> others == old(others) && inMbox.queue == old(inMbox.queue)
          {
            var ok := KernelPut(me, data[from + i], blocking && i == 0);
            if !ok { break; }
            OneMore(old(By(me, inMbox.put)), data, from, i);
            i, done := i + 1, done + 1;
          }
          if i > 0 { rc := 4 * i; }
      }
    }

    /** The next word of m, for which a blocking read waits. */
    method KernelGet(m: Mailbox, me: nat, wait: bool, next: Word) returns (ok: bool, w: Word)
      requires Valid() && me != SPE && m in {outMbox, intrMbox}
      modifies m, `others
      ensures Valid() && old(m.put) <= m.put && old(m.got) <= m.got
      ensures By(me, m.got) == old(By(me, m.got)) + (if ok then [w] else [])
      ensures wait ==> ok
      ensures old(others) == [] && |old(m.queue)| > 0 ==> ok
    {
      hide Tagged, WordsOf, By;
      w := next;
      Meanwhile(m, me);
      if |m.queue| == 0 {
        if !wait { return false, w; }
        m.Put(SPE, next);
      }
      ByPlus(me, m.got, Entry(me, m.queue[0]));
      w := m.Get(me);
      ok := true;
    }

    /** As many words as the kernel moves, into mboxData[from..] */
    method ReadWords(m: Mailbox, me: nat, mboxData: array<Word>, from: nat, count: nat, words: nat, next: Word,
                     blocking: bool)
      returns (i: nat)
      requires Valid() && me != SPE && m in {outMbox, intrMbox} && from < count <= mboxData.Length
      modifies m, mboxData, `others
      ensures Valid() && old(m.put) <= m.put && old(m.got) <= m.got
      ensures i <= count - from && i <= (if words < 1 then 1 else words) && (i == 0 ==> !blocking)
      ensures By(me, m.got) == old(By(me, m.got)) + mboxData[from..from + i]
      ensures forall j :: 0 <= j < mboxData.Length && !(from <= j < from + i) ==> mboxData[j] == old(mboxData[j])
      ensures old(others) == [] && |old(m.queue)| > 0 ==> i > 0
    {
      hide Tagged, WordsOf, By;
      i := 0;
      ghost var taken: seq<Word> := [];
      while i < count - from && (i < words || i == 0)
        invariant i == |taken| <= count - from
        invariant Valid() && old(m.put) <= m.put && old(m.got) <= m.got
        invariant By(me, m.got) == old(By(me, m.got)) + taken
        invariant i <= words || i == 1
        invariant i == 0 ==> others == old(others) && m.queue == old(m.queue)
        invariant forall j :: 0 <= j < i ==> mboxData[from + j] == taken[j]
        invariant forall j :: 0 <= j < mboxData.Length && !(from <= j < from + i) ==> mboxData[j] == old(mboxData[j])
      {
        var ok, w := KernelGet(m, me, blocking && i == 0, next);
        if !ok { break; }
        mboxData[from + i] := w;
        taken := taken + [w];
        i := i + 1;
      }
      assert mboxData[from..from + i] == taken;
    }

    /** read() into mboxData[from..] from mbox, ibox or ibox_nb; rc counts bytes */
    method KernelRead(m: Mailbox, me: nat, mboxData: array<Word>, from: nat, count: nat, blocking: bool)
      returns (rc: int, errno: Errno, waits: bool, ghost done: nat)
      requires Valid() && me != SPE && m in {outMbox, intrMbox} && from < count <= mboxData.Length
      modifies m, mboxData, `others, `answers
      ensures Valid() && old(m.put) <= m.put && old(m.got) <= m.got
      ensures done <= count - from && By(me, m.got) == old(By(me, m.got)) + mboxData[from..from + done]
      ensures forall j :: 0 <= j < mboxData.Length && !(from <= j < from + done) ==> mboxData[j] == old(mboxData[j])
      ensures rc == (if done > 0 then 4 * done else -1)
      ensures Taken(old(answers), answers, blocking, waits, errno, done)
      ensures old(others) == [] && Moves(old(answers)) && |old(m.queue)| > 0 ==> done > 0
    {
      hide Tagged, WordsOf, By;
      done, waits, rc, errno := 0, false, -1, EAGAIN;
      if |answers| == 0 {
        waits := blocking;
        return;
      }
      var answer := answers[0];
      answers := answers[1..];
      match answer {
        case Refused(e) => errno := e;
        case Moved(words, next) =>
          var i := ReadWords(m, me, mboxData, from, count, words, next, blocking);
          done := i;
          if i > 0 { rc := 4 * i; }
      }
    }

    // ---------- the API ----------

    /** _base_spe_in_mbox_write.  However the SPE drains the mailbox and others write to it,
        the words of this call arrive in order and without a gap among its own: n words for
        a call that returns n, and some first part of them for one that fails.  It fails and
        waits only as poll() and write() say; what room there was is filled first. */
    method InWrite(me: nat, mboxData: Buffer, count: int, behavior: Behavior)
      returns (r: Outcome, ghost done: nat)
      requires Valid() && me != SPE
      requires mboxData.At? ==> count <= |mboxData.words|
      modifies this, inMbox
      ensures Valid() && old(inMbox.put) <= inMbox.put && old(inMbox.got) <= inMbox.got
      ensures done == 0 || (mboxData.At? && done <= count)
      ensures By(me, inMbox.put) == old(By(me, inMbox.put)) + (if done == 0 then [] else mboxData.words[..done])
      ensures r.Returned? ==> r.n == done
      ensures var valid := mboxData.At? && count >= 1 && !behavior.Unknown?;
        && (!valid ==> r == Failed(EINVAL) && done == 0)
        && (valid ==>
          && (r.Returned? && behavior.AllBlocking? ==> done == count)
          && (r.Returned? && behavior.AnyBlocking? ==> done >= 1)
          && (!r.Returned? ==> done < count)
          && (!r.Returned? && done > 0 ==> behavior.AllBlocking?)
          && (!mapped && r.Failed? ==> r.errno == EIO)
          && (mapped ==> ThroughRegisters(behavior, r, done, count, old(polls), polls, |old(inMbox.queue)|))
          && (!mapped ==> ThroughFile(behavior, r, done, old(answers), answers))
          && (old(others) == [] ==>
            && (mapped ==> |old(inMbox.queue)| + done <= inMbox.capacity)
            && (!mapped && Moves(old(answers)) && |old(inMbox.queue)| < inMbox.capacity ==> done > 0)))
    {
      hide Tagged, WordsOf, By, UsedUp, Used, Most, AllMoved, AllReady;
      done := 0;
      if mboxData.Null? || count < 1 { return Failed(EINVAL), 0; }
      var data := mboxData.words[..count];
      match behavior {
        case AllBlocking =>
          if mapped {
            r, done := WriteAllPs(me, data);
          } else {
            r, done := WriteAllFile(me, data);
            if r.Failed? { FirstMoved(old(answers), answers, r, done); }
            if Moves(old(answers)) { Delivered(old(answers), answers, r, done); }
          }
        case AnyBlocking =>
          if mapped {
            r, done := WriteAnyPs(me, data);
          } else {
            var rc, errno, waits, n := KernelWrite(me, data, 0, true);
            done := n;
            r := if waits then Waiting else if rc == -1 then Failed(EIO) else Returned(rc / 4);
            FirstAnswer(old(answers), answers, waits, errno, n);
          }
        case AnyNonBlocking =>
          if mapped {
            var total := InWritePs(me, data, 0);
            ByMore(me, old(inMbox.put), data[0..total]);
            r, done := Returned(total), total;
          } else {
            var rc, errno, waits, n := KernelWrite(me, data, 0, false);
            if rc == -1 && errno == EAGAIN { rc := 0; }
            done := n;
            r := if rc == -1 then Failed(EIO) else Returned(rc / 4);
          }
        case Unknown => r := Failed(EINVAL);
      }
      Front(mboxData.words, count, done);
    }

    ghost predicate ThroughRegisters(behavior: Behavior, r: Outcome, done: nat, count: nat,
                                     before: seq<Poll>, after: seq<Poll>, queued: nat)
    {
      && (done == count || queued + done >= inMbox.capacity)
      && if behavior.AnyNonBlocking? then r.Returned? else Polled(before, after, r)
    }

    static ghost predicate ThroughFile(behavior: Behavior, r: Outcome, done: nat, before: seq<Answer>,
                                       after: seq<Answer>)
    {
      if behavior.AnyNonBlocking? then !r.Waiting? && (r.Failed? <==> Refuses(before))
      else
        && Answered(before, after, r, done)
        && (r.Failed? ==> (done > 0 <==> Moves(before)))
    }

    /** poll() on wbox, while others go on; false when there is no answer yet.  It is called
        only when there was no room since the last time. */
    method AwaitRoom(me: nat) returns (answer: Poll, answered: bool)
      requires Valid() && foundFull
      modifies inMbox, `others, `polls, `foundFull
      ensures !foundFull
      ensures Valid() && old(inMbox.put) <= inMbox.put && old(inMbox.got) <= inMbox.got
      ensures By(me, inMbox.put) == old(By(me, inMbox.put))
      ensures answered <==> old(polls) != []
      ensures if answered then answer == old(polls)[0] && polls == old(polls)[1..] else polls == old(polls)
      ensures old(others) == [] ==> others == [] && inMbox.got == old(inMbox.got) && inMbox.queue == old(inMbox.queue)
    {
      answer, answered := Ready, |polls| > 0;
      foundFull := false;
      Meanwhile(inMbox, me);
      if answered {
        answer := polls[0];
        polls := polls[1..];
      }
    }

    /** Lines 130-141 */
    method WriteAllPs(me: nat, data: seq<Word>) returns (r: Outcome, ghost done: nat)
      requires Valid() && me != SPE && |data| > 0
      modifies inMbox, `others, `polls, `foundFull
      ensures Valid() && old(inMbox.put) <= inMbox.put && old(inMbox.got) <= inMbox.got
      ensures done <= |data| && By(me, inMbox.put) == old(By(me, inMbox.put)) + data[..done]
      ensures if r.Returned? then r.n == done == |data| else done < |data|
      ensures Polled(old(polls), polls, r)
      ensures done == |data| || |old(inMbox.queue)| + done >= inMbox.capacity
      ensures old(others) == [] ==> |old(inMbox.queue)| + done <= inMbox.capacity
    {
      hide Tagged, WordsOf, By;
      var total := 0;
      done := 0;
      UsedNone(polls);
      while true
        invariant Valid() && old(inMbox.put) <= inMbox.put && old(inMbox.got) <= inMbox.got
        invariant done == total < |data| && By(me, inMbox.put) == old(By(me, inMbox.put)) + data[..total]
        invariant UsedUp(old(polls), polls) && AllReady(Used(old(polls), polls))
        invariant (done == 0 && inMbox.queue == old(inMbox.queue)) || |old(inMbox.queue)| + done >= inMbox.capacity
        invariant old(others) == [] ==> others == [] && |inMbox.queue| == |old(inMbox.queue)| + done
        decreases |polls|
      {
        hide UsedUp, Used;
        ghost var before := inMbox.put;
        var n := InWritePs(me, data, total);
        ByMore(me, before, data[total..total + n]);
        assert data[..total + n] == data[..total] + data[total..total + n];
        total := total + n;
        done := total;
        if total == |data| { return Returned(total), done; }
        if |polls| > 0 { UsedOne(old(polls), polls); }
        var answer, answered := AwaitRoom(me);
        if !answered { return Waiting, done; }
        if answer.PollFails? {
          AllButLast(old(polls), polls);
          return Failed(answer.errno), done;
        }
      }
    }

    /** Lines 143-151; total counts bytes */
    method WriteAllFile(me: nat, data: seq<Word>) returns (r: Outcome, ghost done: nat)
      requires Valid() && me != SPE && |data| > 0
      modifies inMbox, `others, `answers
      ensures Valid() && old(inMbox.put) <= inMbox.put && old(inMbox.got) <= inMbox.got
      ensures done <= |data| && By(me, inMbox.put) == old(By(me, inMbox.put)) + data[..done]
      ensures if r.Returned? then r.n == done == |data| else done < |data|
      ensures r.Failed? ==> r.errno == EIO
      ensures Answered(old(answers), answers, r, done)
    {
      hide Tagged, WordsOf, By, Context.Valid, Context.Sound;
      var total := 0;
      done := 0;
      UsedNone(answers);
      while total < 4 * |data|
        invariant Valid() && old(inMbox.put) <= inMbox.put && old(inMbox.got) <= inMbox.got
        invariant total == 4 * done <= 4 * |data| && By(me, inMbox.put) == old(By(me, inMbox.put)) + data[..done]
        invariant Going(old(answers), answers, done)
        decreases |answers|
      {
        hide Going, Answered;
        assert total / 4 == done;
        ghost var before, so := answers, done;
        var rc, errno, waits, n := KernelWrite(me, data, total / 4, true);
        assert data[..done + n] == data[..done] + data[done..done + n];
        done := done + n;
        OneAnswer(old(answers), before, answers, waits, errno, so, n);
        if waits { return Waiting, done; }
        if rc == -1 { return Failed(EIO), done; }
        total := total + rc;
      }
      assert total / 4 == done;
      r := Returned(total / 4);
    }

    /** Lines 158-167 */
    method WriteAnyPs(me: nat, data: seq<Word>) returns (r: Outcome, ghost done: nat)
      requires Valid() && me != SPE && |data| > 0
      modifies inMbox, `others, `polls, `foundFull
      ensures Valid() && old(inMbox.put) <= inMbox.put && old(inMbox.got) <= inMbox.got
      ensures done <= |data| && By(me, inMbox.put) == old(By(me, inMbox.put)) + data[..done]
      ensures if r.Returned? then r.n == done >= 1 else done == 0
      ensures Polled(old(polls), polls, r)
      ensures done == |data| || |old(inMbox.queue)| + done >= inMbox.capacity
      ensures old(others) == [] ==> |old(inMbox.queue)| + done <= inMbox.capacity
    {
      hide Tagged, WordsOf, By;
      done := 0;
      UsedNone(polls);
      while true
        invariant Valid() && old(inMbox.put) <= inMbox.put && old(inMbox.got) <= inMbox.got
        invariant done == 0 && By(me, inMbox.put) == old(By(me, inMbox.put))
        invariant UsedUp(old(polls), polls) && AllReady(Used(old(polls), polls))
        invariant |inMbox.queue| == |old(inMbox.queue)| || |old(inMbox.queue)| >= inMbox.capacity
        invariant old(others) == [] ==> others == [] && |inMbox.queue| == |old(inMbox.queue)|
        decreases |polls|
      {
        hide UsedUp, Used;
        ghost var before := inMbox.put;
        var total := InWritePs(me, data, 0);
        ByMore(me, before, data[0..total]);
        if total != 0 { return Returned(total), total; }
        if |polls| > 0 { UsedOne(old(polls), polls); }
        var answer, answered := AwaitRoom(me);
        if !answered { return Waiting, 0; }
        if answer.PollFails? {
          AllButLast(old(polls), polls);
          return Failed(answer.errno), 0;
        }
      }
    }

    /** _base_spe_out_mbox_read, the mirror image without blocking */
    method OutRead(me: nat, mboxData: array?<Word>, count: int) returns (r: Outcome, ghost done: nat)
      requires Valid() && me != SPE
      requires mboxData != null ==> count <= mboxData.Length
      modifies outMbox, mboxData, `others, `answers
      ensures Valid() && old(outMbox.put) <= outMbox.put && old(outMbox.got) <= outMbox.got
      ensures done == 0 || (mboxData != null && done <= count)
      ensures By(me, outMbox.got) == old(By(me, outMbox.got)) + (if done == 0 then [] else mboxData[..done])
      ensures mboxData != null ==> forall j :: done <= j < mboxData.Length ==> mboxData[j] == old(mboxData[j])
      ensures mboxData == null || count < 1 ==> r == Failed(EINVAL) && done == 0
      ensures r == Returned(done) || (r.Failed? && done == 0)
      ensures mboxData != null && count >= 1 && !mapped ==>
        && (r.Failed? <==> Refuses(old(answers))) && (r.Failed? ==> r.errno == old(answers)[0].errno)
        && (old(others) == [] && Moves(old(answers)) && |old(outMbox.queue)| > 0 ==> done > 0)
      ensures mboxData != null && count >= 1 && mapped ==>
        r.Returned? && (done == count || |old(outMbox.queue)| <= done)
    {
      hide Tagged, WordsOf, By;
      done := 0;
      if mboxData == null || count < 1 { return Failed(EINVAL), 0; }
      if mapped {
        var total := OutReadPs(me, mboxData, count);
        ByMore(me, old(outMbox.got), mboxData[..total]);
        r, done := Returned(total), total;
      } else {
        var rc, errno, waits, n := KernelRead(outMbox, me, mboxData, 0, count, false);
        done := n;
        if rc != -1 { r := Returned(rc / 4); }
        else { r := if errno == EAGAIN then Returned(0) else Failed(errno); }
      }
    }

    /** _base_spe_out_intr_mbox_read */
    method IntrRead(me: nat, mboxData: array?<Word>, count: int, behavior: Behavior)
      returns (r: Outcome, ghost done: nat)
      requires Valid() && me != SPE
      requires mboxData != null ==> count <= mboxData.Length
      modifies intrMbox, mboxData, `others, `answers
      ensures Valid() && old(intrMbox.put) <= intrMbox.put && old(intrMbox.got) <= intrMbox.got
      ensures done == 0 || (mboxData != null && done <= count)
      ensures By(me, intrMbox.got) == old(By(me, intrMbox.got)) + (if done == 0 then [] else mboxData[..done])
      ensures mboxData != null ==> forall j :: done <= j < mboxData.Length ==> mboxData[j] == old(mboxData[j])
      ensures r.Returned? ==> r.n == done
      ensures var valid := mboxData != null && count >= 1 && !behavior.Unknown?;
        && (!valid ==> r == Failed(EINVAL) && done == 0)
        && (valid ==>
          && (r.Returned? && behavior.AllBlocking? ==> done == count)
          && (r.Returned? && behavior.AnyBlocking? ==> done >= 1)
          && (!r.Returned? ==> done < count)
          && (!r.Returned? && done > 0 ==> behavior.AllBlocking?)
          && (r.Failed? ==> r.errno == EIO)
          && ThroughFile(behavior, r, done, old(answers), answers)
          && (old(others) == [] && Moves(old(answers)) && |old(intrMbox.queue)| > 0 ==> done > 0))
    {
      hide Tagged, WordsOf, By, UsedUp, Used, Most, AllMoved;
      done := 0;
      if mboxData == null || count < 1 { return Failed(EINVAL), 0; }
      match behavior {
        case AllBlocking =>
          r, done := ReadAll(me, mboxData, count);
          if r.Failed? { FirstMoved(old(answers), answers, r, done); }
          if Moves(old(answers)) { Delivered(old(answers), answers, r, done); }
        case AnyBlocking =>
          var rc, errno, waits, n := KernelRead(intrMbox, me, mboxData, 0, count, true);
          FirstAnswer(old(answers), answers, waits, errno, n);
          done := n;
          r := if waits then Waiting else if rc == -1 then Failed(EIO) else Returned(rc / 4);
        case AnyNonBlocking =>
          var rc, errno, waits, n := KernelRead(intrMbox, me, mboxData, 0, count, false);
          if rc == -1 && errno == EAGAIN { rc := 0; }
          done := n;
          r := if rc == -1 then Failed(EIO) else Returned(rc / 4);
        case Unknown => r := Failed(EINVAL);
      }
    }

    /** Lines 270-279; total counts bytes */
    method ReadAll(me: nat, mboxData: array<Word>, count: nat) returns (r: Outcome, ghost done: nat)
      requires Valid() && me != SPE && 0 < count <= mboxData.Length
      modifies intrMbox, mboxData, `others, `answers
      ensures Valid() && old(intrMbox.put) <= intrMbox.put && old(intrMbox.got) <= intrMbox.got
      ensures done <= count && By(me, intrMbox.got) == old(By(me, intrMbox.got)) + mboxData[..done]
      ensures forall j :: done <= j < mboxData.Length ==> mboxData[j] == old(mboxData[j])
      ensures if r.Returned? then r.n == done == count else done < count
      ensures r.Failed? ==> r.errno == EIO
      ensures Answered(old(answers), answers, r, done)
    {
      hide Tagged, WordsOf, By, Context.Valid, Context.Sound;
      var total := 0;
      done := 0;
      UsedNone(answers);
      while total < 4 * count
        invariant Going(old(answers), answers, done)
        invariant Valid() && old(intrMbox.put) <= intrMbox.put && old(intrMbox.got) <= intrMbox.got
        invariant total == 4 * done <= 4 * count
        invariant By(me, intrMbox.got) == old(By(me, intrMbox.got)) + mboxData[..done]
        invariant forall j :: done <= j < mboxData.Length ==> mboxData[j] == old(mboxData[j])
        decreases |answers|
      {
        hide Going, Answered;
        ghost var before, so, script := mboxData[..], done, answers;
        assert total / 4 == done;
        var rc, errno, waits, n := KernelRead(intrMbox, me, mboxData, total / 4, count, true);
        MoreRead(before, mboxData[..], done, n);
        done := done + n;
        OneAnswer(old(answers), script, answers, waits, errno, so, n);
        if waits { return Waiting, done; }
        if rc == -1 { return Failed(EIO), done; }
        total := total + rc;
      }
      assert total / 4 == done;
      r := Returned(total / 4);
    }
  }

  // ---------- a call that fails halfway ----------

  /** Two words to deliver, and write() fails after the first: -1 is returned, and the word
      is in the mailbox. */
  method FileFailsHalfway(a: Word, b: Word, other: int) returns (c: Context, r: Outcome)
    ensures r == Failed(EIO) && By(1, c.inMbox.put) == [a]
  {
    hide WordsOf, By, Tagged;
    c := new Context(false, [], [], [Moved(1, 0), Refused(OtherError(other))]);
    ghost var done;
    ghost var script := c.answers;
    NobodyYet(1);
    r, done := c.InWrite(1, At([a, b]), 2, AllBlocking);
    UsedOfTwo(script, c.answers, r, done);
    assert [a, b][..1] == [a];
  }

  lemma NobodyYet(who: nat)
    ensures By(who, []) == []
  {}

  lemma UsedOfTwo(before: seq<Answer>, after: seq<Answer>, r: Outcome, done: nat)
    requires |before| == 2 && before[0].Moved? && before[0].words == 1 && before[1].Refused?
    requires Answered(before, after, r, done) && (r.Returned? ==> done == 2)
    ensures r.Failed? && done == 1
  {
    hide Most;
    MostOfTwo(before);
  }

  lemma MostOfTwo(u: seq<Answer>)
    requires |u| == 2 && u[0].Moved? && u[0].words == 1 && u[1].Refused?
    ensures Most(u[..0]) == 0 && Most(u[..1]) == 1 && Most(u[..2]) == 1
  {
    MostMore(u[..0], u[0]);
    MostMore(u[..1], u[1]);
    assert u[..1] == u[..0] + [u[0]] && u[..2] == u[..1] + [u[1]];
  }

  /** The same through the registers: the mailbox takes four words of five, and poll()
      fails. */
  method PollFailsHalfway(ws: seq<Word>, other: int) returns (c: Context, r: Outcome)
    requires |ws| == 5
    ensures r == Failed(OtherError(other)) && By(1, c.inMbox.put) == ws[..4]
  {
    hide WordsOf, By, Tagged;
    c := new Context(true, [], [PollFails(OtherError(other))], []);
    ghost var done;
    ghost var script := c.polls;
    NobodyYet(1);
    r, done := c.InWrite(1, At(ws), 5, AllBlocking);
    UsedOfOne(script, c.polls, r);
  }

  lemma UsedOfOne(before: seq<Poll>, after: seq<Poll>, r: Outcome)
    requires |before| == 1 && before[0].PollFails? && Polled(before, after, r)
    ensures r.Returned? || r == Failed(before[0].errno)
  {
    var u := Used(before, after);
    assert |u| == 1 ==> u[0] == before[0];
  }
}
