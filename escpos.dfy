/**
 * The printer side of a print job, seen as a sink. The source drives an
 * `escpos.printer.Network` object; here every call it makes on that object
 * becomes one `Op` value appended to the printer's log, and the byte
 * protocol behind each call is not modelled.
 */
module Escpos {

  /** One call on the printer object. */
  datatype Op =
    | SetSize(width: int, height: int)          // p.set(width=..., height=...)
    | SetAlign(align: string)                    // p.set(align=...)
    | SetBold(bold: bool)                        // p.set(bold=...)
    | SetInvert(invert: bool)                    // p.set(invert=...)
    | Text(text: string)                         // p.text(...)
    | Cut                                        // p.cut()
    | Barcode(data: string, kind: string, width: int, height: int)  // p.barcode(..., align_ct=False)
    | Qr(data: string, size: int)                // p.qr(..., size=...)

  /** The connection to one printer: its address, whether it is open, and what has been sent. */
  class Printer {
    const host: string
    const port: int
    var ops: seq<Op>
    var open: bool

    /** `Network(host, port=port)`: a fresh, open connection that has sent nothing. */
    constructor (host: string, port: int)
      ensures this.host == host && this.port == port
      ensures open && ops == []
    {
      this.host := host;
      this.port := port;
      ops := [];
      open := true;
    }

    /** Sends one call to the printer. */
    method Apply(op: Op)
      requires open
      modifies this
      ensures open && ops == old(ops) + [op]
    {
      ops := ops + [op];
    }

    /** `p.close()`: nothing more is sent. */
    method Close()
      modifies this
      ensures !open && ops == old(ops)
    {
      open := false;
    }
  }
}
