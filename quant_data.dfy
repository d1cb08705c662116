/**
 * quant_data.py: one imported data file. The CSV reading is I/O; its two columns arrive as x and y.
 */
module Data {
  import opened Curves

  class QuantData {
    /** The first and second columns of the file. */
    const x: seq<real>
    const y: seq<real>
    /** The fit for this file; None until the analysis creates one. */
    var compositeCurve: CompositeCurve?

    /** QuantData(path) with read_csv's two columns: no fit yet. */
    constructor (x: seq<real>, y: seq<real>)
      ensures this.x == x && this.y == y
      ensures compositeCurve == null
    {
      this.x := x;
      this.y := y;
      compositeCurve := null;
    }
  }
}
