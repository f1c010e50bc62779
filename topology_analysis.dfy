/**
 * The summary helpers of the topology analysis (src/topology_analysis.py):
 * the per-(src, dst, proto) sum of `len` over the records, the edge list of
 * one protocol's graph, and the diameter loop over a distance matrix. The
 * graph library itself (graph construction, shortest distances) is not part
 * of this model: the distance matrix is an input.
 */
module TopologyAnalysis {
  import opened Wrappers
  import opened PacketModel

  /** graph-tool's 32-bit distance for "no path". */
  const Unreachable: int := 2147483647

  /** The grouping key of a record. */
  datatype Key = Key(src: string, dst: string, proto: int)

  function KeyOf(p: Packet): Key {
    Key(p.src, p.dst, p.proto)
  }

  /** The sum of the `len` of the records that have key `k`. */
  function SumLen(log: seq<Packet>, k: Key): int {
    if log == [] then 0
    else (if KeyOf(log[0]) == k then log[0].len else 0) + SumLen(log[1..], k)
  }

  /** A key that does not occur contributes nothing. */
  lemma {:induction false} SumLenAbsent(log: seq<Packet>, k: Key)
    requires forall i :: 0 <= i < |log| ==> KeyOf(log[i]) != k
    ensures SumLen(log, k) == 0
  {
    if log != [] {
      assert forall i :: 0 <= i < |log| - 1 ==> log[1..][i] == log[i + 1];
      SumLenAbsent(log[1..], k);
    }
  }

  /**
   * `group_by(['src', 'dst', 'proto']).agg(pl.col('len').sum())`: one entry
   * per distinct key of the log, holding the sum of that group's `len`.
   */
  function GroupLenSums(log: seq<Packet>): (groups: map<Key, int>)
    ensures forall k :: k in groups <==> exists i :: 0 <= i < |log| && KeyOf(log[i]) == k
    ensures forall k :: k in groups ==> groups[k] == SumLen(log, k)
  {
    if log == [] then map[]
    else
      var rest := log[1..];
      var sums := GroupLenSums(rest);
      var k := KeyOf(log[0]);
      var result := sums[k := (if k in sums then sums[k] else 0) + log[0].len];
      assert forall i :: 0 <= i < |rest| ==> rest[i] == log[i + 1];
      assert forall key :: key in result <==> exists i :: 0 <= i < |log| && KeyOf(log[i]) == key by {
        forall key | key in result ensures exists i :: 0 <= i < |log| && KeyOf(log[i]) == key {
          if key != k {
            var i :| 0 <= i < |rest| && KeyOf(rest[i]) == key;
            assert KeyOf(log[i + 1]) == key;
          } else {
            assert KeyOf(log[0]) == key;
          }
        }
        forall key | exists i :: 0 <= i < |log| && KeyOf(log[i]) == key ensures key in result {
          var i :| 0 <= i < |log| && KeyOf(log[i]) == key;
          if i > 0 {
            assert KeyOf(rest[i - 1]) == key;
          }
        }
      }
      assert forall key :: key in result ==> result[key] == SumLen(log, key) by {
        forall key | key in result ensures result[key] == SumLen(log, key) {
          if key == k && k !in sums {
            SumLenAbsent(rest, k);
          }
        }
      }
      result
  }

  /** A row of the aggregated table; `len` is whatever weight column the caller selected. */
  datatype Row<W> = Row(src: string, dst: string, proto: int, len: W)

  /** An edge of the graph: its two end points and its weight. */
  datatype Edge<W> = Edge(src: string, dst: string, weight: W)

  function Project<W>(r: Row<W>): Edge<W> {
    Edge(r.src, r.dst, r.len)
  }

  /**
   * `get_graph(dataframe, protocol)`'s edge list: the rows whose `proto` is
   * `protocol`, each reduced to `(src, dst, len)`, in row order.
   */
  function GetGraph<W>(rows: seq<Row<W>>, protocol: int): (edges: seq<Edge<W>>)
    ensures |edges| <= |rows|
  {
    if rows == [] then []
    else
      var front := rows[..|rows| - 1];
      var last := rows[|rows| - 1];
      GetGraph(front, protocol) + (if last.proto == protocol then [Project(last)] else [])
  }

  /** The indices of the rows whose `proto` is `protocol`: increasing, in range, and all of them. */
  function Matching<W>(rows: seq<Row<W>>, protocol: int): (idx: seq<nat>)
    ensures forall j :: 0 <= j < |idx| ==> idx[j] < |rows| && rows[idx[j]].proto == protocol
    ensures forall j, k :: 0 <= j < k < |idx| ==> idx[j] < idx[k]
    ensures forall i :: 0 <= i < |rows| && rows[i].proto == protocol ==> i in idx
  {
    if rows == [] then []
    else
      var front := rows[..|rows| - 1];
      var prev := Matching(front, protocol);
      assert forall j :: 0 <= j < |prev| ==> rows[prev[j]] == front[prev[j]];
      prev + (if rows[|rows| - 1].proto == protocol then [|rows| - 1] else [])
  }

  /**
   * The filter keeps exactly the matching rows, in row order: edge `j` is the
   * projection of the `j`-th row whose `proto` is `protocol`.
   */
  lemma {:induction false} GetGraphMatching<W>(rows: seq<Row<W>>, protocol: int)
    ensures |GetGraph(rows, protocol)| == |Matching(rows, protocol)|
    ensures forall j :: 0 <= j < |Matching(rows, protocol)| ==>
      GetGraph(rows, protocol)[j] == Project(rows[Matching(rows, protocol)[j]])
  {
    if rows != [] {
      var front := rows[..|rows| - 1];
      var last := rows[|rows| - 1];
      GetGraphMatching(front, protocol);
      var prev := Matching(front, protocol);
      var edges := GetGraph(front, protocol);
      var idx := Matching(rows, protocol);
      var all := GetGraph(rows, protocol);
      if last.proto == protocol {
        assert all == edges + [Project(last)];
        assert idx == prev + [|rows| - 1];
        forall j | 0 <= j < |idx| ensures all[j] == Project(rows[idx[j]]) {
          if j < |prev| {
            assert all[j] == edges[j] && idx[j] == prev[j];
            assert rows[prev[j]] == front[prev[j]];
          }
        }
      } else {
        assert all == edges;
        assert idx == prev;
        forall j | 0 <= j < |idx| ensures all[j] == Project(rows[idx[j]]) {
          assert rows[prev[j]] == front[prev[j]];
        }
      }
    }
  }

  /** Every edge comes from a row of the protocol, and every row of the protocol gives an edge. */
  lemma {:induction false} GetGraphEdges<W>(rows: seq<Row<W>>, protocol: int)
    ensures forall e :: e in GetGraph(rows, protocol) ==>
      exists i :: 0 <= i < |rows| && rows[i].proto == protocol && Project(rows[i]) == e
    ensures forall i :: 0 <= i < |rows| && rows[i].proto == protocol ==> Project(rows[i]) in GetGraph(rows, protocol)
  {
    if rows != [] {
      var front := rows[..|rows| - 1];
      var last := rows[|rows| - 1];
      GetGraphEdges(front, protocol);
      assert forall i :: 0 <= i < |front| ==> front[i] == rows[i];
      assert GetGraph(rows, protocol) == GetGraph(front, protocol) + (if last.proto == protocol then [Project(last)] else []);
    }
  }

  /** The edge list of a table split in two is the two tables' edge lists, one after the other. */
  lemma {:induction false} GetGraphAppend<W>(a: seq<Row<W>>, b: seq<Row<W>>, protocol: int)
    ensures GetGraph(a + b, protocol) == GetGraph(a, protocol) + GetGraph(b, protocol)
  {
    if b == [] {
      assert a + b == a;
    } else {
      var front := b[..|b| - 1];
      assert (a + b)[..|a + b| - 1] == a + front;
      assert (a + b)[|a + b| - 1] == b[|b| - 1];
      GetGraphAppend(a, front, protocol);
    }
  }

  /** A table every row of which has the protocol gives one edge per row, in row order. */
  lemma {:induction false} GetGraphAllMatch<W>(rows: seq<Row<W>>, protocol: int)
    requires forall i :: 0 <= i < |rows| ==> rows[i].proto == protocol
    ensures |GetGraph(rows, protocol)| == |rows|
    ensures forall i :: 0 <= i < |rows| ==> GetGraph(rows, protocol)[i] == Project(rows[i])
  {
    if rows != [] {
      var front := rows[..|rows| - 1];
      var last := rows[|rows| - 1];
      assert forall i :: 0 <= i < |front| ==> front[i] == rows[i];
      GetGraphAllMatch(front, protocol);
      assert GetGraph(rows, protocol) == GetGraph(front, protocol) + [Project(last)];
    }
  }

  /** Why the diameter loop raised, and at which vertex. */
  datatype DiameterError =
    | NoUnreachable(vertex: nat)  // `set.remove` raised KeyError: the row has no "no path" entry
    | NothingReachable(vertex: nat)  // `max` raised ValueError: only "no path" entries in the row

  /** The row survives the loop body: it has a "no path" entry and some other entry. */
  predicate RowAccepted(row: seq<int>) {
    Unreachable in row && exists j :: 0 <= j < |row| && row[j] != Unreachable
  }

  /**
   * `max(set(row) - {Unreachable})`: the largest entry of the row other than
   * "no path", or `None` when there is no such entry (where `max` raises).
   * The set and the row hold the same values, so the row is scanned directly.
   */
  method MaxReachable(row: seq<int>) returns (m: Option<int>)
    ensures m.None? <==> forall j :: 0 <= j < |row| ==> row[j] == Unreachable
    ensures m.Some? ==> m.value != Unreachable && m.value in row
    ensures m.Some? ==> forall j :: 0 <= j < |row| && row[j] != Unreachable ==> row[j] <= m.value
  {
    m := None;
    var j := 0;
    while j < |row|
      invariant 0 <= j <= |row|
      invariant m.None? <==> forall i :: 0 <= i < j ==> row[i] == Unreachable
      invariant m.Some? ==> m.value != Unreachable && m.value in row[..j]
      invariant m.Some? ==> forall i :: 0 <= i < j && row[i] != Unreachable ==> row[i] <= m.value
    {
      if row[j] != Unreachable && (m.None? || row[j] > m.value) {
        m := Some(row[j]);
      }
      assert row[..j + 1] == row[..j] + [row[j]];
      j := j + 1;
    }
    assert row[..j] == row;
  }

  /**
   * `get_diameter`: the largest finite distance in the matrix (0 when there is
   * none), where row `v` holds the distances from vertex `v`. A row with no
   * "no path" entry, or with nothing else, raises at the first such vertex.
   */
  method GetDiameter(dist: seq<seq<int>>) returns (r: Result<int, DiameterError>)
    ensures r.Ok? <==> forall v :: 0 <= v < |dist| ==> RowAccepted(dist[v])
    ensures r.Ok? ==> r.value >= 0
    ensures r.Ok? ==> forall v, j :: 0 <= v < |dist| && 0 <= j < |dist[v]| && dist[v][j] != Unreachable ==> dist[v][j] <= r.value
    ensures r.Ok? ==> r.value == 0 || exists v, j :: 0 <= v < |dist| && 0 <= j < |dist[v]| && dist[v][j] != Unreachable && dist[v][j] == r.value
    ensures r.Err? ==> r.error.vertex < |dist| && forall u :: 0 <= u < r.error.vertex ==> RowAccepted(dist[u])
    ensures r.Err? && r.error.NoUnreachable? ==> Unreachable !in dist[r.error.vertex]
    ensures r.Err? && r.error.NothingReachable? ==> Unreachable in dist[r.error.vertex] && !RowAccepted(dist[r.error.vertex])
  {
    var diameter := 0;
    var v := 0;
    while v < |dist|
      invariant 0 <= v <= |dist| && diameter >= 0
      invariant forall u :: 0 <= u < v ==> RowAccepted(dist[u])
      invariant forall u, j :: 0 <= u < v && 0 <= j < |dist[u]| && dist[u][j] != Unreachable ==> dist[u][j] <= diameter
      invariant diameter == 0 || exists u, j :: 0 <= u < v && 0 <= j < |dist[u]| && dist[u][j] != Unreachable && dist[u][j] == diameter
    {
      if Unreachable !in dist[v] {
        return Err(NoUnreachable(v));
      }
      var best := MaxReachable(dist[v]);
      if best.None? {
        return Err(NothingReachable(v));
      }
      var temp := best.value;
      if temp > diameter {
        diameter := temp;
      }
      v := v + 1;
    }
    return Ok(diameter);
  }
}
