// The Ackermann task of the build command: a resumable computation that
// follows the start / provideValue / finish protocol and discovers its
// second input only once the first one has been delivered.

module AckTask {
  import opened Ackermann
  import opened AckKeys

  /** One taskNeedsInput call: the key asked for and the input slot on which
      its value is to come back. */
  datatype Request = Request(key: Key, slot: nat)

  /** The build engine as a task sees it: it records, in order, every input
      the task asks it for. */
  class Engine {
    var requests: seq<Request>

    constructor ()
      ensures requests == []
    {
      requests := [];
    }

    method TaskNeedsInput(key: Key, slot: nat)
      modifies this
      ensures requests == old(requests) + [Request(key, slot)]
    {
      requests := requests + [Request(key, slot)];
    }
  }

  /** a comes strictly before b in the lexicographic order on (m, n) over
      non-negative arguments: the order in which task recursion terminates. */
  predicate Below(a: Key, b: Key) {
    0 <= a.m && 0 <= a.n && (a.m < b.m || (a.m == b.m && a.n < b.n))
  }

  /** The inputs the task for key asks for, in order, when every input it
      receives is the Ackermann value of the key it asked for: none for
      m = 0, the one key (m-1, 1) for n = 0, else (m, n-1) and then
      (m-1, Ack(m, n-1)). The i-th request is on slot i and names a key
      below key. */
  function ExpectedRequests(key: Key): (rs: seq<Request>)
    requires key.m >= 0 && key.n >= 0
    ensures |rs| <= 2
    ensures forall i :: 0 <= i < |rs| ==> rs[i].slot == i && Below(rs[i].key, key)
    ensures rs == [] <==> key.m == 0
  {
    if key.m == 0 then []
    else if key.n == 0 then [Request(Key(key.m - 1, 1), 0)]
    else [Request(Key(key.m, key.n - 1), 0), Request(Key(key.m - 1, Ack(key.m, key.n - 1)), 1)]
  }

  class AckermannTask {
    const m: int
    const n: int
    var recursiveResultA: int
    var recursiveResultB: int

    constructor (m: int, n: int)
      ensures this.m == m && this.n == n
      ensures recursiveResultA == 0 && recursiveResultB == 0
    {
      this.m, this.n := m, n;
      recursiveResultA, recursiveResultB := 0, 0;
    }

    /** Requests the first recursive result, if there is one: nothing for
        m = 0, else one input on slot 0. The task's own fields do not change. */
    method Start(engine: Engine)
      modifies engine
      ensures m == 0 ==> engine.requests == old(engine.requests)
      ensures m != 0 && n == 0 ==> engine.requests == old(engine.requests) + [Request(Key(m - 1, 1), 0)]
      ensures m != 0 && n != 0 ==> engine.requests == old(engine.requests) + [Request(Key(m, n - 1), 0)]
    {
      if m == 0 {
      } else if n == 0 {
        engine.TaskNeedsInput(Key(m - 1, 1), 0);
      } else {
        engine.TaskNeedsInput(Key(m, n - 1), 0);
      }
    }

    /** Slot 0 stores the first result and, when m and n are both non-zero,
        asks on slot 1 for the key that result determines; slot 1 stores the
        second result and asks for nothing. Any other slot is a defect. */
    method ProvideValue(engine: Engine, slot: nat, value: int)
      requires slot == 0 || slot == 1
      modifies this, engine
      ensures slot == 0 ==> recursiveResultA == value && recursiveResultB == old(recursiveResultB)
      ensures slot == 0 && m != 0 && n != 0 ==> engine.requests == old(engine.requests) + [Request(Key(m - 1, value), 1)]
      ensures slot == 0 && (m == 0 || n == 0) ==> engine.requests == old(engine.requests)
      ensures slot == 1 ==> recursiveResultB == value && recursiveResultA == old(recursiveResultA)
      ensures slot == 1 ==> engine.requests == old(engine.requests)
    {
      if slot == 0 {
        recursiveResultA := value;
        if m != 0 && n != 0 {
          engine.TaskNeedsInput(Key(m - 1, recursiveResultA), 1);
        }
      } else {
        recursiveResultB := value;
      }
    }

    /** Every input that was asked for holds the Ackermann value of its key. */
    ghost predicate InputsCorrect()
      reads this
    {
      m >= 0 && n >= 0 &&
      (m != 0 && n == 0 ==> recursiveResultA == Ack(m - 1, 1)) &&
      (m != 0 && n != 0 ==> recursiveResultA == Ack(m, n - 1) && recursiveResultB == Ack(m - 1, recursiveResultA))
    }

    /** The task's value, from what it has received; with correct inputs it
        is Ack(m, n). */
    function Finish(): (r: int)
      reads this
      requires m != 0 ==> recursiveResultA != 0
      requires m != 0 && n != 0 ==> recursiveResultB != 0
      ensures InputsCorrect() ==> r == Ack(m, n)
    {
      if m == 0 then n + 1
      else if n == 0 then recursiveResultA
      else recursiveResultB
    }
  }

  /** A synchronous driver for the protocol, not the build engine: it starts
      a task for key, builds each input the task asks for by recursion and
      delivers it on the requested slot until no request is outstanding,
      then finishes the task. It returns the task's value and the inputs
      the task asked for. */
  method Build(key: Key) returns (value: int, requested: seq<Request>)
    requires key.m >= 0 && key.n >= 0
    ensures value == Ack(key.m, key.n)
    ensures requested == ExpectedRequests(key)
    decreases key.m, key.n
  {
    var engine := new Engine();
    var task := new AckermannTask(key.m, key.n);
    task.Start(engine);
    ghost var expected := ExpectedRequests(key);
    var delivered := 0;
    while delivered < |engine.requests|
      invariant delivered <= |engine.requests| <= |expected|
      invariant engine.requests == expected[..|engine.requests|]
      invariant |engine.requests| == if key.m != 0 && key.n != 0 && delivered == 0 then 1 else |expected|
      invariant delivered >= 1 ==> task.recursiveResultA == Ack(expected[0].key.m, expected[0].key.n)
      invariant delivered >= 2 ==> task.recursiveResultB == Ack(expected[1].key.m, expected[1].key.n)
      decreases |expected| - delivered
    {
      var request := engine.requests[delivered];
      var input, _ := Build(request.key);
      task.ProvideValue(engine, request.slot, input);
      delivered := delivered + 1;
    }
    value := task.Finish();
    requested := engine.requests;
  }
}
