/** The learning set the MaxSAT encoder reads (Inv-NCS/maxsat.py lines 43-75):
    one row per instance holding `n` marks and a class label, with the derived
    quantities the encoder computes from it. Rows are indexed by position
    `0..m-1`, which is how the encoder's `X[i, u]` reads a row label. */
module Dataset {
  import opened Seqs

  /** One instance: its mark on each criterion and its class. */
  datatype Instance = Instance(marks: seq<real>, cls: nat)

  /** The data frame: `n` mark columns followed by the class column. */
  datatype Data = Data(n: nat, rows: seq<Instance>)

  /** Every row has one mark per criterion, and there is at least one row
      (`max(self.data["class"])` raises on an empty column). */
  predicate WellFormed(d: Data) {
    |d.rows| > 0 && forall u | 0 <= u < |d.rows| :: |d.rows[u].marks| == d.n
  }

  /** `max(self.data["class"])`. */
  function MaxClass(rows: seq<Instance>): (c: nat)
    requires |rows| > 0
    ensures forall u | 0 <= u < |rows| :: rows[u].cls <= c
    ensures exists u | 0 <= u < |rows| :: rows[u].cls == c
  {
    if |rows| == 1 then rows[0].cls
    else
      var c := MaxClass(rows[1..]);
      assert forall u | 1 <= u < |rows| :: rows[u] == rows[1..][u - 1];
      if rows[0].cls >= c then rows[0].cls else c
  }

  /** `p = max(class) + 1`, the number of classes; profiles are the levels `1..p-1`. */
  function P(d: Data): nat
    requires WellFormed(d)
  {
    MaxClass(d.rows) + 1
  }

  /** `range(1, p)`. */
  function Levels(d: Data): seq<nat>
    requires WellFormed(d)
  {
    Range(1, P(d))
  }

  /** `X[i, u]`: the mark of instance `u` on criterion `i`. */
  function Mark(d: Data, i: nat, u: nat): real
    requires WellFormed(d) && i < d.n && u < |d.rows|
  {
    d.rows[u].marks[i]
  }

  /** `X[i]`: the column of criterion `i`, row by row, duplicates included. */
  function Column(d: Data, i: nat): (r: seq<real>)
    requires WellFormed(d) && i < d.n
    ensures |r| == |d.rows|
    ensures forall u | 0 <= u < |r| :: r[u] == Mark(d, i, u)
  {
    seq(|d.rows|, u requires 0 <= u < |d.rows| => Mark(d, i, u))
  }

  /** `C(c)`: the positions of the instances of class exactly `c`, in row order. */
  function ClassMembers(d: Data, c: nat): (r: seq<nat>)
    ensures forall u: nat :: u in r <==> u < |d.rows| && d.rows[u].cls == c
  {
    var keep := (u: nat) => u < |d.rows| && d.rows[u].cls == c;
    var r := Filter(Range(0, |d.rows|), keep);
    forall u: nat
      ensures u in r <==> u < |d.rows| && d.rows[u].cls == c
    {
      assert keep(u) == (u < |d.rows| && d.rows[u].cls == c);
    }
    r
  }

  /** `self.data.size`: the number of cells, marks and class column together. */
  function Size(d: Data): nat {
    |d.rows| * (d.n + 1)
  }
}
