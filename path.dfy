/** reconstruct_path: rebuilding a route from the parent links a search leaves behind. */
module PathReconstruction {
  import opened Wrappers
  import opened Grid

  /**
   * Following parent links from any ranked cell other than `start` leads to a
   * ranked cell of strictly smaller rank, so every such walk ends at `start`.
   */
  ghost predicate LeadsTo(parent: map<Pos, Option<Pos>>, start: Pos, rank: map<Pos, nat>)
  {
    && (forall v {:trigger v in rank} :: v in rank && v != start ==> v in parent)
    && (forall v {:trigger parent[v]} :: v in parent && v in rank && v != start ==>
          parent[v].Some? && parent[v].value in rank && rank[parent[v].value] < rank[v])
  }

  /** `s[::-1]` */
  function Reversed<T>(s: seq<T>): (r: seq<T>)
    ensures |r| == |s|
    ensures forall i :: 0 <= i < |s| ==> r[i] == s[|s| - 1 - i]
  {
    if s == [] then [] else Reversed(s[1..]) + [s[0]]
  }

  /**
   * Walk back from `goal` to `start` collecting cells, then reverse. The ghost
   * `rank` witnesses that the parent chain from `goal` reaches `start`.
   */
  method ReconstructPath(parent: map<Pos, Option<Pos>>, goal: Pos, start: Pos, ghost rank: map<Pos, nat>)
    returns (path: seq<Pos>)
    requires goal in rank && LeadsTo(parent, start, rank)
    ensures |path| >= 1 && path[0] == start && path[|path| - 1] == goal
    ensures forall i :: 0 < i < |path| ==>
      path[i] != start && path[i] in parent && parent[path[i]] == Some(path[i - 1])
    ensures forall i :: 0 <= i < |path| ==> path[i] in rank
    ensures start == goal ==> path == [start]
  {
    var back := [];
    var curr := goal;
    while curr != start
      invariant curr in rank
      invariant forall j :: 0 <= j < |back| ==> back[j] != start && back[j] in rank && back[j] in parent
      invariant back == [] ==> curr == goal
      invariant back != [] ==> back[0] == goal && parent[back[|back| - 1]] == Some(curr)
      invariant forall j :: 0 < j < |back| ==> parent[back[j - 1]] == Some(back[j])
      decreases rank[curr]
    {
      back := back + [curr];
      curr := parent[curr].value;
    }
    var full := back + [start];
    path := Reversed(full);
    forall i | 0 < i < |path|
      ensures path[i] != start && path[i] in parent && parent[path[i]] == Some(path[i - 1])
    {
      var j := |full| - 1 - i;
      assert path[i] == full[j] == back[j];
      assert path[i - 1] == full[j + 1];
    }
  }

  /** Ranks rise by at least one along a reconstructed path, so it has at most rank[goal] moves. */
  lemma {:induction false} PathLengthBound(path: seq<Pos>, parent: map<Pos, Option<Pos>>, start: Pos, rank: map<Pos, nat>)
    requires |path| >= 1 && LeadsTo(parent, start, rank)
    requires forall i :: 0 <= i < |path| ==> path[i] in rank
    requires forall i :: 0 < i < |path| ==> path[i] != start && parent[path[i]] == Some(path[i - 1])
    ensures |path| - 1 <= rank[path[|path| - 1]]
    decreases |path|
  {
    if |path| > 1 {
      PathLengthBound(path[..|path| - 1], parent, start, rank);
    }
  }
}
