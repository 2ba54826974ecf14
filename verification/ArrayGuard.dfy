/** The guard that owns a partly built array: no element is lost and none is released twice. */
module ArrayGuard {

  /** What asking for one more element does. */
  datatype Step<T> = Produce(element: T) | Fail | Panic

  datatype Slot<T> = Uninit | Init(element: T)

  datatype Ending = Filled | Failed | Panicked

  /** The element decoder, with a script of how its calls go and a log of the
      elements it has produced; once the script has run out it fails. */
  class Source<T> {
    var script: seq<Step<T>>
    ghost var produced: seq<T>

    constructor (script: seq<Step<T>>)
      ensures this.script == script && produced == []
    {
      this.script := script;
      produced := [];
    }

    method Next() returns (step: Step<T>)
      modifies this
      ensures step == if old(script) == [] then Fail else old(script)[0]
      ensures script == if old(script) == [] then [] else old(script)[1..]
      ensures produced == if step.Produce? then old(produced) + [step.element] else old(produced)
    {
      if script == [] {
        return Fail;
      }
      step := script[0];
      script := script[1..];
      if step.Produce? {
        produced := produced + [step.element];
      }
    }
  }

  /** How filling `n` slots from a script ends. */
  function EndingOf<T>(n: nat, script: seq<Step<T>>): Ending {
    if n == 0 then Filled
    else if script == [] then Failed
    else match script[0]
      case Produce(_) => EndingOf(n - 1, script[1..])
      case Fail => Failed
      case Panic => Panicked
  }

  class ArrayDropGuard<T> {
    const buffer: array<Slot<T>>
    var initCount: nat

    ghost predicate Valid()
      reads this, buffer
    {
      initCount <= buffer.Length && forall i | 0 <= i < initCount :: buffer[i].Init?
    }

    /** Nothing has been written past the prefix: the count is exactly the number
        of initialised slots. */
    ghost predicate Exact()
      reads this, buffer
    {
      Valid() && forall i | initCount <= i < buffer.Length :: buffer[i].Uninit?
    }

    /** The elements the guard answers for: the initialised prefix. */
    ghost function Held(): (elements: seq<T>)
      requires Valid()
      reads this, buffer
      ensures |elements| == initCount
    {
      Elements(buffer[..initCount])
    }

    constructor (n: nat)
      ensures Exact() && fresh(buffer) && buffer.Length == n && initCount == 0
    {
      buffer := new Slot<T>[n](_ => Uninit);
      initCount := 0;
    }

    /** Fills the buffer from the front, counting an element only after it has
        been written: whatever happens, exactly what was produced is held. */
    method FillBuffer(source: Source<T>) returns (ending: Ending)
      requires Exact() && initCount == 0
      modifies this, buffer, source
      ensures Exact() && source.produced == old(source.produced) + Held()
      ensures ending == EndingOf(buffer.Length, old(source.script))
      ensures ending == Filled ==> initCount == buffer.Length
    {
      var i := 0;
      while i < buffer.Length
        invariant i <= buffer.Length && initCount == i && Exact()
        invariant source.produced == old(source.produced) + Held()
        invariant EndingOf(buffer.Length - i, source.script) == EndingOf(buffer.Length, old(source.script))
      {
        ghost var held := Held();
        var step := source.Next();
        match step {
          case Produce(element) =>
            buffer[i] := Init(element);
            initCount := initCount + 1;
            assert Held() == held + [element];
          case Fail => return Failed;
          case Panic => return Panicked;
        }
        i := i + 1;
      }
      return Filled;
    }

    /** Gives the elements away and disowns them. */
    method TransmuteToArray() returns (elements: seq<T>)
      requires Valid() && initCount == buffer.Length
      modifies this
      ensures elements == old(Held()) && Valid() && initCount == 0
    {
      elements := Elements(buffer[..]);
      assert buffer[..] == buffer[..initCount];
      initCount := 0;
    }

    /** The destructor: releases the initialised prefix. */
    method Drop() returns (released: seq<T>)
      requires Valid()
      ensures released == Held()
    {
      released := Elements(buffer[..initCount]);
    }
  }

  function Elements<T>(slots: seq<Slot<T>>): (elements: seq<T>)
    requires forall i | 0 <= i < |slots| :: slots[i].Init?
    ensures |elements| == |slots|
  {
    seq(|slots|, i requires 0 <= i < |slots| => slots[i].element)
  }

  /** An array decode from start to end, with the guard's destructor running on
      every way out. Each element produced is handed out or released, exactly
      once and in order: all are handed out on success, all are released on an
      error or a panic. */
  method DeserializeArray<T>(n: nat, source: Source<T>) returns (ending: Ending, handed: seq<T>, released: seq<T>)
    modifies source
    ensures source.produced == old(source.produced) + handed + released
    ensures ending == EndingOf(n, old(source.script))
    ensures if ending == Filled then |handed| == n && released == [] else handed == []
  {
    var guard := new ArrayDropGuard<T>(n);
    handed := [];
    ending := guard.FillBuffer(source);
    if ending == Filled {
      handed := guard.TransmuteToArray();
    }
    released := guard.Drop();
  }
}
