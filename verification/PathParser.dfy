/** path_parser.c: a path becomes the linked list of its non-empty components. Strings are C
    strings without their terminator. */
module PathParser {
  import opened Options

  const MAX_PATH_LENGTH := 100

  class PathPart {
    var part: string
    var next: PathPart?

    constructor (part: string)
      ensures this.part == part && next == null
    {
      this.part := part;
      next := null;
    }
  }

  // ----- what a path means -----

  /** The position of the first slash, or the length of the string. */
  function SegmentEnd(s: string): (k: nat)
    ensures k <= |s| && (forall i :: 0 <= i < k ==> s[i] != '/')
    ensures k < |s| ==> s[k] == '/'
  {
    if s == [] || s[0] == '/' then 0
    else
      assert forall i :: 0 <= i < |s| - 1 ==> s[1..][i] == s[i + 1];
      1 + SegmentEnd(s[1..])
  }

  /** All fields between slashes, empty ones included. */
  function Fields(s: string): seq<string>
    decreases |s|
  {
    var k := SegmentEnd(s);
    if k == |s| then [s] else [s[..k]] + Fields(s[k + 1..])
  }

  function NonEmpty(fields: seq<string>): seq<string>
  {
    if fields == [] then []
    else (if fields[0] == [] then [] else [fields[0]]) + NonEmpty(fields[1..])
  }

  /** The non-empty components of a path, in order. */
  function Components(s: string): seq<string>
  {
    NonEmpty(Fields(s))
  }

  predicate IsComponent(p: string)
  {
    p != [] && '/' !in p
  }

  /** A leading slash contributes no component. */
  lemma {:induction false} SkipSlash(s: string)
    requires s != [] && s[0] == '/'
    ensures Components(s) == Components(s[1..])
  {
    assert SegmentEnd(s) == 0 && s[..0] == [];
    assert Fields(s) == [[]] + Fields(s[1..]);
    assert Fields(s)[1..] == Fields(s[1..]);
  }

  /** A string that does not start with a slash starts with its first component. */
  lemma {:induction false} FirstComponent(s: string)
    requires s != [] && s[0] != '/'
    ensures var k := SegmentEnd(s);
            k > 0 && IsComponent(s[..k]) && Components(s) == [s[..k]] + Components(s[k..])
  {
    var k := SegmentEnd(s);
    NoComponent();
    if k == |s| {
      assert s[..k] == s && s[k..] == [];
      assert Fields(s) == [s] && Fields(s)[1..] == [];
    } else {
      var f, t := Fields(s), s[k..];
      assert t[1..] == s[k + 1..];
      assert f == [s[..k]] + Fields(t[1..]);
      assert f[1..] == Fields(t[1..]);
      SkipSlash(t);
    }
  }

  lemma {:induction false} NoComponent()
    ensures Components([]) == []
  {
    assert Fields([]) == [[]] && Fields([])[1..] == [];
  }

  /** Each part behind a slash. */
  function Join(parts: seq<string>): string
  {
    if parts == [] then [] else "/" + parts[0] + Join(parts[1..])
  }

  lemma {:induction false} SegmentOfJoin(p: string, rest: string)
    requires '/' !in p && (rest == [] || rest[0] == '/')
    ensures SegmentEnd(p + rest) == |p|
  {
    var s := p + rest;
    SegmentEndIs(s, |p|);
  }

  /** Parsing inverts joining. */
  lemma {:induction false} ComponentsOfJoin(parts: seq<string>)
    requires forall i :: 0 <= i < |parts| ==> IsComponent(parts[i])
    ensures Components(Join(parts)) == parts
  {
    if parts == [] {
      NoComponent();
    } else {
      var p, rest := parts[0], Join(parts[1..]);
      ComponentsOfJoin(parts[1..]);
      assert Join(parts) == "/" + (p + rest);
      assert Join(parts)[1..] == p + rest;
      SkipSlash(Join(parts));
      SegmentOfJoin(p, rest);
      assert (p + rest)[0] == p[0];
      FirstComponent(p + rest);
      assert (p + rest)[..|p|] == p && (p + rest)[|p|..] == rest;
    }
  }

  // ----- the parser -----

  /** strchr for a slash, as a position, from `from` on. */
  method FindSlash(path: string, from: nat) returns (position: Option<nat>)
    requires from <= |path|
    ensures match position
            case None => SegmentEnd(path[from..]) == |path| - from && '/' !in path[from..]
            case Some(p) => p == from + SegmentEnd(path[from..]) < |path|
  {
    var i := from;
    while i < |path| && path[i] != '/'
      invariant from <= i <= |path|
      invariant forall k :: from <= k < i ==> path[k] != '/'
    {
      i := i + 1;
    }
    SegmentEndIs(path[from..], i - from);
    if i == |path| {
      return None;
    }
    return Some(i);
  }

  lemma {:induction false} SegmentEndIs(s: string, k: nat)
    requires k <= |s| && (forall i :: 0 <= i < k ==> s[i] != '/') && (k < |s| ==> s[k] == '/')
    ensures SegmentEnd(s) == k
  {
  }

  /** get_and_remove_prefix_path: the first component behind `from`, and where it ends. */
  method GetAndRemovePrefix(path: string, from: nat) returns (prefix: Option<string>, rest: nat)
    requires from <= |path|
    ensures from <= rest <= |path|
    ensures match prefix
            case None => Components(path[from..]) == []
            case Some(p) => rest > from && IsComponent(p) && Components(path[from..]) == [p] + Components(path[rest..])
    decreases |path| - from
  {
    var suffix := FindSlash(path, from);
    if suffix.None? && from == |path| {
      NoComponent();
      return None, from;
    }
    var position := (if suffix.None? then |path| else suffix.value) - from;
    if position == 0 {
      SkipSlash(path[from..]);
      assert path[from..][1..] == path[from + 1..];
      prefix, rest := GetAndRemovePrefix(path, from + 1);
      return;
    }
    FirstComponent(path[from..]);
    assert path[from..][..position] == path[from..from + position];
    assert path[from..][position..] == path[from + position..];
    return Some(path[from..from + position]), from + position;
  }

  /** parse_one_path_part. */
  method ParseOne(path: string, from: nat) returns (node: PathPart?, rest: nat)
    requires from <= |path|
    ensures from <= rest <= |path|
    ensures node == null ==> Components(path[from..]) == []
    ensures node != null ==> fresh(node) && node.next == null && rest > from && IsComponent(node.part)
                             && Components(path[from..]) == [node.part] + Components(path[rest..])
  {
    var prefix;
    prefix, rest := GetAndRemovePrefix(path, from);
    if prefix.None? {
      return null, rest;
    }
    node := new PathPart(prefix.value);
  }

  /** The nodes are distinct, carry the given parts and are linked in order; where the last one
      points is left open. */
  ghost predicate Linked(nodes: seq<PathPart>, parts: seq<string>)
    reads set n | n in nodes
  {
    && |nodes| == |parts|
    && (forall i :: 0 <= i < |nodes| ==> nodes[i].part == parts[i])
    && (forall i :: 0 <= i < |nodes| - 1 ==> nodes[i].next == nodes[i + 1])
    && (forall i, j :: 0 <= i < j < |nodes| ==> nodes[i] != nodes[j])
  }

  /** The nodes are the list that starts at root. */
  ghost predicate IsList(root: PathPart?, nodes: seq<PathPart>, parts: seq<string>)
    reads set n | n in nodes
  {
    && Linked(nodes, parts) && |nodes| > 0
    && nodes[0] == root && nodes[|nodes| - 1].next == null
  }

  /** The first node carries the first part, and is the last one if there is just one part. */
  lemma {:induction false} HeadOfList(root: PathPart, nodes: seq<PathPart>, parts: seq<string>)
    requires IsList(root, nodes, parts)
    ensures root.part == parts[0] && (root.next == null <==> |parts| == 1)
  {
    assert |parts| > 1 ==> nodes[0].next == nodes[1];
  }

  /** path_format_is_valid. */
  predicate FormatIsValid(path: string)
  {
    (if |path| < MAX_PATH_LENGTH then |path| else MAX_PATH_LENGTH) >= 1 && path[0] == '/'
  }

  /** One step of the loop of path_parse: the next component, if any, is linked behind `last`. */
  method ParseNext(path: string, from: nat, last: PathPart, ghost nodes: seq<PathPart>, ghost parts: seq<string>)
    returns (next: PathPart?, rest: nat, ghost nodes': seq<PathPart>, ghost parts': seq<string>)
    requires from <= |path| && Linked(nodes, parts) && |nodes| > 0 && nodes[|nodes| - 1] == last
    requires Components(path) == parts + Components(path[from..])
    modifies last
    ensures from <= rest <= |path| && Linked(nodes', parts') && nodes <= nodes'
    ensures next == null ==> nodes' == nodes && last.next == null && Components(path) == parts'
    ensures next != null ==> nodes' == nodes + [next] && fresh(next) && rest > from
                             && Components(path) == parts' + Components(path[rest..])
  {
    next, rest := ParseOne(path, from);
    last.next := next;
    if next == null {
      nodes', parts' := nodes, parts;
    } else {
      nodes', parts' := nodes + [next], parts + [next.part];
    }
  }

  /** path_parse: the list of the components, or NULL when there is none or no leading slash. */
  method PathParse(path: string) returns (root: PathPart?, ghost nodes: seq<PathPart>)
    ensures root == null <==> path == [] || path[0] != '/' || Components(path) == []
    ensures root != null ==> IsList(root, nodes, Components(path))
    ensures forall n :: n in nodes ==> fresh(n)
  {
    nodes := [];
    if !FormatIsValid(path) {
      return null, [];
    }
    var rest := 0;
    assert path[0..] == path;
    root, rest := ParseOne(path, 0);
    if root == null {
      return;
    }
    nodes := [root];
    ghost var parts := [root.part];
    var part;
    part, rest, nodes, parts := ParseNext(path, rest, root, nodes, parts);
    while part != null
      invariant 0 <= rest <= |path|
      invariant |nodes| > 0 && nodes[0] == root && Linked(nodes, parts)
      invariant forall n :: n in nodes ==> fresh(n)
      invariant part == null ==> nodes[|nodes| - 1].next == null && Components(path) == parts
      invariant part != null ==> nodes[|nodes| - 1] == part && Components(path) == parts + Components(path[rest..])
      decreases part != null, |path| - rest
    {
      assert part in nodes;
      part, rest, nodes, parts := ParseNext(path, rest, part, nodes, parts);
    }
  }

  /** Parsing the join of non-empty parts without slashes gives a list that carries them. */
  method ParseOfJoin(parts: seq<string>) returns (root: PathPart?, ghost nodes: seq<PathPart>)
    requires parts != [] && forall i :: 0 <= i < |parts| ==> parts[i] != [] && '/' !in parts[i]
    ensures root != null && IsList(root, nodes, parts)
  {
    ComponentsOfJoin(parts);
    root, nodes := PathParse(Join(parts));
  }
}
