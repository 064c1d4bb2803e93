/** The circular buffer of trace messages (ecos/host/infra/trace.cxx). */
module TraceRing {

  datatype Message = Message(what: int, fn: string, file: string, line: int, text: string, data: seq<int>)

  datatype Entry = Entry(valid: bool, message: Message)

  const BLANK := Entry(false, Message(0, "", "", 0, "", []))
  /** Every entry has room for this many words of data. */
  const DATA: nat := 8

  function Padded(data: seq<int>): (r: seq<int>)
    ensures |data| <= DATA ==> |r| == DATA
    ensures data <= r && forall k :: |data| <= k < |r| ==> r[k] == 0
    decreases DATA - |data|
  {
    if |data| >= DATA then data else Padded(data + [0])
  }

  // ---------------------------------------------------------------- the log

  /** The latest n messages, newest first; all of them if there are fewer. */
  function Newest(log: seq<Message>, n: nat): seq<Message> {
    if n == 0 || log == [] then [] else [log[|log| - 1]] + Newest(log[..|log| - 1], n - 1)
  }

  lemma {:induction false} NewestNext(log: seq<Message>, n: nat)
    ensures Newest(log, n + 1) == Newest(log, n) + if n < |log| then [log[|log| - 1 - n]] else []
  {
    if n > 0 && log != [] {
      NewestNext(log[..|log| - 1], n - 1);
    }
  }

  lemma {:induction false} NewestIs(log: seq<Message>, n: nat, k: nat)
    ensures |Newest(log, n)| == if n < |log| then n else |log|
    ensures k < |Newest(log, n)| ==> Newest(log, n)[k] == log[|log| - 1 - k]
  {
    if n > 0 && log != [] {
      NewestIs(log[..|log| - 1], n - 1, if k > 0 then k - 1 else 0);
    }
  }

  /** How many messages ago the entry at place i was written, if it ever was. */
  function Age(index: nat, size: nat, i: nat): int {
    if i < index then index - 1 - i else index - 1 - i + size
  }

  class Tracer {
    const vec: array<Entry>
    var index: nat
    /** All messages since the start. */
    ghost var log: seq<Message>

    ghost predicate Valid()
      reads this, vec
    {
      && index < vec.Length
      && (forall i :: 0 <= i < vec.Length ==>
           var age := Age(index, vec.Length, i);
           vec[i].valid == (age < |log|) && (age < |log| ==> vec[i].message == log[|log| - 1 - age]))
    }

    constructor (size: nat)
      requires size > 0
      ensures Valid() && fresh(vec) && log == [] && vec.Length == size
    {
      vec := new Entry[size](_ => BLANK);
      index, log := 0, [];
    }

    /** The cyg_tracemsg functions, which differ in how much data they are given. */
    method Trace(what: int, fn: string, file: string, line: int, text: string, data: seq<int>)
      requires Valid() && |data| <= DATA
      modifies this, vec
      ensures Valid() && log == old(log) + [Message(what, fn, file, line, text, Padded(data))]
    {
      hide Padded;
      var i := index;
      vec[i] := vec[i].(valid := false);
      index := (index + 1) % vec.Length;
      var message := Message(what, fn, file, line, text, Padded(data));
      vec[i] := vec[i].(message := message);
      vec[i] := vec[i].(valid := true);
      log := log + [message];
      assert index == if i + 1 == vec.Length then 0 else i + 1;
    }

    /** trace_callback: whatever has been traced, the latest messages that fit the buffer come
        out, newest first. */
    method Dump() returns (output: seq<Message>)
      requires Valid()
      ensures output == Newest(log, vec.Length)
    {
      output := [];
      var i := index;
      while i > 0
        invariant 0 <= i <= index && output == Newest(log, index - i)
      {
        i := i - 1;
        NewestNext(log, index - 1 - i);
        if vec[i].valid {
          output := output + [vec[i].message];
        }
      }
      i := vec.Length;
      while i > index
        invariant index <= i <= vec.Length && output == Newest(log, index + (vec.Length - i))
      {
        i := i - 1;
        NewestNext(log, index + (vec.Length - 1 - i));
        if vec[i].valid {
          output := output + [vec[i].message];
        }
      }
    }
  }
}
