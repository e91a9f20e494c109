/** The line transport the protocol layers talk through, as a value: the
    lines written so far and the lines the device has still to deliver.
    A read with nothing left to deliver returns "" (the read timed out). */
module Transport {

  datatype Link = Link(sent: seq<string>, inbox: seq<string>) {

    /** `_write(line)`. */
    function Write(line: string): Link {
      Link(sent + [line], inbox)
    }

    /** `_readline()`: the next line, or "" on timeout. */
    function Read(): (string, Link) {
      if inbox == [] then ("", this) else (inbox[0], Link(sent, inbox[1..]))
    }
  }
}
