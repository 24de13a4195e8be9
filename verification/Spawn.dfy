/** The posix_spawn file-action list: a heap list with head, tail and count, and its replay. */
module Spawn {
  import opened Options

  datatype Action =
    | Close(fd: int)
    | Dup2(fd: int, newfd: int)
    | Open(fd: int, path: string, oflag: int, mode: int)
    | Chdir(path: string)
    | Fchdir(fd: int)

  datatype Code = OK | EINVAL | ENOMEM

  class Node {
    const action: Action
    var next: Node?

    constructor (action: Action)
      ensures this.action == action && next == null
    {
      this.action := action;
      next := null;
    }
  }

  class FileActions {
    var head: Node?
    var tail: Node?
    var count: nat
    /** The nodes in list order. */
    ghost var nodes: seq<Node>

    /** Acyclic, head to tail along `next`, and counted. */
    ghost predicate Valid()
      reads this, nodes
    {
      && (forall i, j :: 0 <= i < j < |nodes| ==> nodes[i] != nodes[j])
      && (forall i {:trigger nodes[i]} :: 0 <= i < |nodes| - 1 ==> nodes[i].next == nodes[i + 1])
      && (nodes != [] ==> nodes[|nodes| - 1].next == null)
      && head == (if nodes == [] then null else nodes[0])
      && tail == (if nodes == [] then null else nodes[|nodes| - 1])
      && count == |nodes|
    }

    ghost function Contents(): (s: seq<Action>)
      reads this
      ensures |s| == |nodes|
      ensures forall i :: 0 <= i < |s| ==> s[i] == nodes[i].action
    {
      seq(|nodes|, i requires 0 <= i < |nodes| reads this => nodes[i].action)
    }

    constructor ()
      ensures Valid() && Contents() == [] && nodes == []
    {
      head, tail, count, nodes := null, null, 0, [];
    }

    /** Link a fresh node after the tail. */
    method Append(act: Node)
      requires Valid() && act.next == null && act !in nodes
      modifies this, tail
      ensures Valid() && nodes == old(nodes) + [act]
      ensures Contents() == old(Contents()) + [act.action]
    {
      if tail != null {
        assert tail == nodes[|nodes| - 1];
        tail.next := act;
      } else {
        head := act;
      }
      tail := act;
      count := count + 1;
      nodes := nodes + [act];
    }
  }

  /** What the program's opaque file-actions variable points at. */
  class Handle {
    var list: FileActions?

    constructor ()
      ensures list == null
    {
      list := null;
    }
  }

  /** posix_spawn_file_actions_init; `oom` is a failed allocation. */
  method Init(fa: Handle?, oom: bool) returns (rc: Code)
    modifies fa
    ensures rc == if fa == null then EINVAL else if oom then ENOMEM else OK
    ensures rc == OK ==> fa.list != null && fresh(fa.list) && fa.list.Valid() && fa.list.nodes == []
    ensures rc != OK ==> fa == null || fa.list == old(fa.list)
  {
    if fa == null { return EINVAL; }
    if oom { return ENOMEM; }
    fa.list := new FileActions();
    rc := OK;
  }

  /** The adddup2, addclose and addfchdir_np calls, and the other two once they have a path. */
  method Add(fa: Handle?, action: Action, oom: bool) returns (rc: Code)
    requires fa != null && fa.list != null ==> fa.list.Valid()
    modifies if fa != null && fa.list != null then {fa.list, fa.list.tail} else {}
    ensures rc == if fa == null || fa.list == null then EINVAL else if oom then ENOMEM else OK
    ensures fa != null && fa.list != null ==>
              fa.list.Valid() && fa.list.Contents() == old(fa.list.Contents()) + (if rc == OK then [action] else [])
    ensures rc == OK ==>
              && fa.list.tail != null && fresh(fa.list.tail)
              && fa.list.nodes == old(fa.list.nodes) + [fa.list.tail]
    ensures rc != OK && fa != null && fa.list != null ==> fa.list.tail == old(fa.list.tail)
  {
    if fa == null { return EINVAL; }
    var mfa := fa.list;
    if mfa == null { return EINVAL; }
    if oom { return ENOMEM; }
    var act := new Node(action);
    mfa.Append(act);
    rc := OK;
  }

  /** The addopen and addchdir_np calls; `action` is None when the path argument is NULL. */
  method AddWithPath(fa: Handle?, action: Option<Action>, oom: bool) returns (rc: Code)
    requires fa != null && fa.list != null ==> fa.list.Valid()
    modifies if fa != null && fa.list != null then {fa.list, fa.list.tail} else {}
    ensures rc == if fa == null || action.None? || fa.list == null then EINVAL else if oom then ENOMEM else OK
    ensures fa != null && fa.list != null ==>
              fa.list.Valid() && fa.list.Contents() == old(fa.list.Contents()) + (if rc == OK then [action.value]
                  else [])
    ensures rc == OK ==> fa.list.tail != null && fresh(fa.list.tail)
    ensures rc != OK && fa != null && fa.list != null ==> fa.list.tail == old(fa.list.tail)
  {
    if fa == null || action.None? { return EINVAL; }
    rc := Add(fa, action.value, oom);
  }

  /** Which recorded actions reach the real posix_spawn. */
  predicate Replayed(a: Action) { a.Close? || a.Dup2? || a.Open? }

  function Keep(s: seq<Action>): (r: seq<Action>)
    ensures |r| <= |s|
  {
    if s == [] then [] else (if Replayed(s[0]) then [s[0]] else []) + Keep(s[1..])
  }

  lemma {:induction false} KeepSnoc(s: seq<Action>, a: Action)
    ensures Keep(s + [a]) == Keep(s) + (if Replayed(a) then [a] else [])
  {
    if s != [] {
      assert (s + [a])[1..] == s[1..] + [a];
      KeepSnoc(s[1..], a);
    } else {
      assert s + [a] == [a] && [a][1..] == [];
    }
  }

  lemma {:induction false} KeepConcat(s: seq<Action>, t: seq<Action>)
    ensures Keep(s + t) == Keep(s) + Keep(t)
    decreases |s|
  {
    hide Replayed;
    if s == [] {
      assert s + t == t;
    } else {
      assert (s + t)[1..] == s[1..] + t;
      KeepConcat(s[1..], t);
      Regroup(if Replayed(s[0]) then [s[0]] else [], Keep(s[1..]), Keep(t));
    }
  }

  lemma {:induction false} Regroup(a: seq<Action>, b: seq<Action>, c: seq<Action>)
    ensures a + (b + c) == a + b + c
  {
  }

  /** The replay goes action by action: each close, dup2 and open is issued as it is, in its place, and a
    * change of directory leaves nothing behind and stops nothing. */
  lemma {:induction false} KeepMeaning(s: seq<Action>, a: Action, t: seq<Action>)
    ensures Keep([]) == []
    ensures Keep(s + [a] + t) == Keep(s) + (if a.Chdir? || a.Fchdir? then [] else [a]) + Keep(t)
  {
    assert [a][1..] == [];
    assert Keep([a]) == if a.Chdir? || a.Fchdir? then [] else [a];
    hide Keep;
    KeepConcat(s + [a], t);
    KeepConcat(s, [a]);
  }

  /** The switch of the replay loop. */
  method Issue(a: Action, issued: seq<Action>) returns (r: seq<Action>)
    ensures r == issued + (if Replayed(a) then [a] else [])
  {
    match a {
      case Close(_) => r := issued + [a];
      case Dup2(_, _) => r := issued + [a];
      case Open(_, _, _, _) => r := issued + [a];
      case _ => r := issued;
    }
  }

  /** The replay loop of do_posix_spawn: what it adds to the real action list. */
  method Replay(fa: Handle?) returns (issued: seq<Action>)
    requires fa != null && fa.list != null ==> fa.list.Valid()
    ensures issued == if fa != null && fa.list != null then Keep(fa.list.Contents()) else []
  {
    issued := [];
    if fa == null { return; }
    var mfa := fa.list;
    if mfa == null { return; }
    assert Keep([]) == [];
    hide Keep;
    var act := mfa.head;
    ghost var i := 0;
    ghost var all := mfa.Contents();
    while act != null
      invariant 0 <= i <= |mfa.nodes|
      invariant act == if i < |mfa.nodes| then mfa.nodes[i] else null
      invariant issued == Keep(all[..i])
      decreases |mfa.nodes| - i
    {
      KeepSnoc(all[..i], act.action);
      assert all[..i + 1] == all[..i] + [act.action];
      issued := Issue(act.action, issued);
      act := act.next;
      i := i + 1;
    }
    assert all[..i] == all;
  }

  /** Nothing recorded is lost in the replay exactly when no working-directory action was recorded. */
  lemma {:induction false} ReplayCompleteIff(s: seq<Action>)
    ensures Keep(s) == s <==> forall i :: 0 <= i < |s| ==> !s[i].Chdir? && !s[i].Fchdir?
  {
    if s != [] {
      ReplayCompleteIff(s[1..]);
      assert forall i :: 0 <= i < |s| ==> s[i] == if i == 0 then s[0] else s[1..][i - 1];
      if Replayed(s[0]) {
        assert Keep(s)[1..] == Keep(s[1..]);
      }
      assert s == [s[0]] + s[1..];
    }
  }

  /** posix_spawn_file_actions_destroy; `freed` lists the nodes released, in order. */
  method Destroy(fa: Handle?) returns (rc: Code, freed: seq<Node>)
    requires fa != null && fa.list != null ==> fa.list.Valid()
    modifies fa
    ensures rc == if fa == null then EINVAL else OK
    ensures fa != null ==> fa.list == null
    ensures fa != null && old(fa.list) != null ==>
              freed == old(fa.list.nodes) && (forall i, j :: 0 <= i < j < |freed| ==> freed[i] != freed[j])
    ensures fa == null || old(fa.list) == null ==> freed == []
  {
    freed := [];
    if fa == null { return EINVAL, []; }
    var mfa := fa.list;
    if mfa == null { return OK, []; }
    var act := mfa.head;
    while act != null
      invariant |freed| <= |mfa.nodes| && freed == mfa.nodes[..|freed|]
      invariant act == if |freed| < |mfa.nodes| then mfa.nodes[|freed|] else null
      decreases |mfa.nodes| - |freed|
    {
      var next := act.next;
      freed := freed + [act];
      act := next;
    }
    fa.list := null;
    rc := OK;
  }

  /** One call: the action, None when its path argument is NULL, and whether its allocation fails. */
  datatype Call = Call(action: Option<Action>, oom: bool)

  function CodeOf(c: Call): Code { if c.action.None? then EINVAL else if c.oom then ENOMEM else OK }

  /** The actions of the calls that succeed. */
  function Succeeded(calls: seq<Call>): seq<Action> {
    if calls == [] then [] else (if CodeOf(calls[0]) == OK then [calls[0].action.value] else []) + Succeeded(calls[1..])
  }

  lemma {:induction false} SucceededSnoc(calls: seq<Call>, c: Call)
    ensures Succeeded(calls + [c]) == Succeeded(calls) + (if CodeOf(c) == OK then [c.action.value] else [])
  {
    if calls == [] {
      assert calls + [c] == [c] && [c][1..] == [];
    } else {
      assert (calls + [c])[1..] == calls[1..] + [c];
      SucceededSnoc(calls[1..], c);
    }
  }

  lemma {:induction false} SucceededConcat(a: seq<Call>, b: seq<Call>)
    ensures Succeeded(a + b) == Succeeded(a) + Succeeded(b)
    decreases |a|
  {
    if a == [] {
      assert a + b == b;
    } else {
      assert (a + b)[1..] == a[1..] + b;
      SucceededConcat(a[1..], b);
      Regroup(if CodeOf(a[0]) == OK then [a[0].action.value] else [], Succeeded(a[1..]), Succeeded(b));
    }
  }

  /** The list after any calls: a call adds its action when it has one and memory, and otherwise nothing. */
  lemma {:induction false} SucceededMeaning(calls: seq<Call>, c: Call, rest: seq<Call>)
    ensures Succeeded([]) == []
    ensures Succeeded(calls + [c] + rest) ==
            Succeeded(calls) + (if c.action.Some? && !c.oom then [c.action.value] else []) + Succeeded(rest)
  {
    assert [c][1..] == [];
    assert Succeeded([c]) == if c.action.Some? && !c.oom then [c.action.value] else [];
    hide Succeeded;
    SucceededConcat(calls + [c], rest);
    SucceededConcat(calls, [c]);
  }

  function CodesOf(calls: seq<Call>): (codes: seq<Code>)
    ensures |codes| == |calls| && forall i :: 0 <= i < |calls| ==> codes[i] == CodeOf(calls[i])
  {
    seq<Code>(|calls|, i requires 0 <= i < |calls| => CodeOf(calls[i]))
  }

  lemma {:induction false} CodesSnoc(calls: seq<Call>, c: Call)
    ensures CodesOf(calls + [c]) == CodesOf(calls) + [CodeOf(c)]
  {
  }

  method Record(fa: Handle, calls: seq<Call>) returns (codes: seq<Code>)
    requires fa.list != null && fa.list.Valid() && fa.list.nodes == []
    modifies fa.list
    ensures fa.list.Valid() && fa.list.Contents() == Succeeded(calls)
    ensures codes == CodesOf(calls)
  {
    var list := fa.list;
    codes := [];
    assert Succeeded([]) == [] && CodesOf([]) == [];
    hide Succeeded, FileActions.Valid, FileActions.Contents, CodesOf;
    for i := 0 to |calls|
      invariant fa.list == list && list.Valid() && list.Contents() == Succeeded(calls[..i])
      invariant codes == CodesOf(calls[..i])
      invariant list.tail != null ==> fresh(list.tail)
    {
      SucceededSnoc(calls[..i], calls[i]);
      CodesSnoc(calls[..i], calls[i]);
      assert calls[..i + 1] == calls[..i] + [calls[i]];
      var rc := AddWithPath(fa, calls[i].action, calls[i].oom);
      codes := codes + [rc];
    }
    assert calls[..|calls|] == calls;
  }

  /** A whole session: any sequence of calls on a new list, failed and refused ones among them, then the
    * replay and the destruction. */
  method Session(calls: seq<Call>) returns (codes: seq<Code>, issued: seq<Action>, released: nat)
    ensures codes == CodesOf(calls)
    ensures issued == Keep(Succeeded(calls))
    ensures released == |Succeeded(calls)|
  {
    hide Succeeded, Keep;
    var fa := new Handle();
    var rc := Init(fa, false);
    codes := Record(fa, calls);
    issued := Replay(fa);
    var freed;
    rc, freed := Destroy(fa);
    released := |freed|;
  }
}
