/**
 * FSM.cs: the stack-based finite state machine that drives a GOAP agent. The stack is a
 * sequence whose last element is the top.
 */
module Fsms {
  import opened Wrappers

  /** The three FSMState delegates GOAPAgent creates; no other state is ever pushed. */
  datatype StateKind = Idle | MoveTo | PerformAction

  /** Stack.Peek: the most recently pushed state, or an exception on an empty stack. */
  function Peek(stack: seq<StateKind>): (r: Result<StateKind>)
    ensures r.Err? <==> stack == []
    ensures r.Err? ==> r.error == InvalidOperationException
    ensures r.Ok? ==> stack == stack[..|stack| - 1] + [r.value]
  {
    if stack == [] then Err(InvalidOperationException) else Ok(stack[|stack| - 1])
  }

  /** Stack.Pop: the stack below the top, or an exception on an empty stack. */
  function Popped(stack: seq<StateKind>): (r: Result<seq<StateKind>>)
    ensures r.Err? <==> stack == []
    ensures r.Err? ==> r.error == InvalidOperationException
    ensures r.Ok? ==> |r.value| == |stack| - 1 && Peek(stack).Ok? && stack == r.value + [Peek(stack).value]
  {
    if stack == [] then Err(InvalidOperationException) else Ok(stack[..|stack| - 1])
  }

  /** Pushing `s` makes it the top, one above the stack as it was; popping it restores that stack. */
  lemma PushThenPop(stack: seq<StateKind>, s: StateKind)
    ensures Peek(stack + [s]) == Ok(s)
    ensures |stack + [s]| == |stack| + 1
    ensures Popped(stack + [s]) == Ok(stack)
  {
    assert (stack + [s])[..|stack|] == stack;
  }

  class Fsm {
    /** _stateStack, bottom first. */
    var stack: seq<StateKind>

    constructor ()
      ensures stack == []
    {
      stack := [];
    }

    /**
     * The state Update invokes: the top one. The stack is left as it is (the invoked state
     * body may change it afterwards); on an empty stack Peek throws.
     */
    method Update() returns (r: Result<StateKind>)
      ensures r == Peek(stack)
      ensures r.Ok? ==> r.value in stack
    {
      if stack == [] {
        return Err(InvalidOperationException);
      }
      r := Ok(stack[|stack| - 1]);
    }

    method PushState(s: StateKind)
      modifies this
      ensures stack == old(stack) + [s]
      ensures Peek(stack) == Ok(s)
    {
      stack := stack + [s];
    }

    /** Removes the top state; on an empty stack Stack.Pop throws and nothing changes. */
    method PopState() returns (r: Outcome)
      modifies this
      ensures r.Fail? <==> old(stack) == []
      ensures r.Fail? ==> r.error == InvalidOperationException && stack == old(stack)
      ensures r.Pass? ==> Popped(old(stack)) == Ok(stack)
    {
      if stack == [] {
        return Fail(InvalidOperationException);
      }
      stack := stack[..|stack| - 1];
      r := Pass;
    }

    method ClearState()
      modifies this
      ensures stack == []
    {
      stack := [];
    }
  }
}
