/**
 * The entities the core works on: edit actions, the test result of one file,
 * and snippets.
 */
module Types {
  import opened Wrappers

  /** The `type` tag of an action. */
  datatype ActionType = Replace | Group | AddFile | RemoveFile | RenameFile

  /**
   * A reference to an action. Actions are JavaScript objects that several
   * lists may share and that the edit engine updates in place, so they live
   * in an arena (`ActionHeap`) and lists hold references into it.
   */
  type ActionRef = nat

  /**
   * One edit: replace the characters in `[start, end)` by `newCode`.
   * A group holds its child actions in `actions`.
   */
  datatype Action = Action(
    kind: ActionType,
    start: int,
    end: int,
    newCode: Option<string>,
    actions: seq<ActionRef>,
    conflictPosition: Option<int>)

  /** Every reference in `refs` names an action of the arena. */
  predicate ValidRefs(nodes: seq<Action>, refs: seq<ActionRef>) {
    forall k :: 0 <= k < |refs| ==> refs[k] < |nodes|
  }

  /**
   * The arena holds an acyclic graph: a child is always stored after its parent.
   * Sharing is allowed, as it is between JavaScript arrays.
   */
  predicate WellFormed(nodes: seq<Action>) {
    forall i, k :: 0 <= i < |nodes| && 0 <= k < |nodes[i].actions| ==> i < nodes[i].actions[k] < |nodes|
  }

  /** The action objects of a running program. */
  class ActionHeap {
    var nodes: seq<Action>

    ghost predicate Valid()
      reads this
    {
      WellFormed(nodes)
    }

    constructor (nodes: seq<Action>)
      requires WellFormed(nodes)
      ensures Valid() && this.nodes == nodes
    {
      this.nodes := nodes;
    }
  }

  /** The test result of one file: the actions a snippet would apply to it. */
  class TestResult {
    const filePath: string
    var actions: seq<ActionRef>
    var fileSource: Option<string>

    constructor (filePath: string, actions: seq<ActionRef>)
      ensures this.filePath == filePath && this.actions == actions && fileSource == None
    {
      this.filePath := filePath;
      this.actions := actions;
      this.fileSource := None;
    }
  }

  /** A snippet as the snippet service lists it. */
  datatype Snippet = Snippet(
    id: int,
    group: string,
    name: string,
    description: Option<string>,
    sourceCode: string)
}
