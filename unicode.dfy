/** The Qt character services the core calls: `QChar::isPrint`, `QChar::isSpace`
    and `QString::fromUtf8`. Their Unicode tables and the UTF-8 decoder are outside
    this model, so they are passed in as functions; `Conforms` fixes only their
    behaviour on ASCII. Surrogate tests are plain range checks and are concrete. */
module Unicode {
  import opened Cells

  datatype Services = Services(isPrint: u16 -> bool, isSpace: u16 -> bool, fromUtf8: seq<byte> -> seq<u16>)

  predicate IsAscii(s: seq<byte>) {
    forall i :: 0 <= i < |s| ==> s[i] < 0x80
  }

  /** Each byte as the code unit with the same value. */
  function Widen(s: seq<byte>): (r: seq<u16>)
    ensures |r| == |s|
    ensures forall i :: 0 <= i < |s| ==> r[i] as int == s[i] as int
  {
    seq(|s|, i requires 0 <= i < |s| => s[i] as int as u16)
  }

  predicate IsHighSurrogate(c: u16) { 0xD800 <= c <= 0xDBFF }
  predicate IsLowSurrogate(c: u16) { 0xDC00 <= c <= 0xDFFF }

  /** On ASCII, printable means 0x20..0x7E, white space is SP, HT, LF, VT, FF and CR,
      and UTF-8 decoding maps each byte to itself. */
  ghost predicate Conforms(u: Services) {
    (forall c: u16 :: c < 0x80 ==> (u.isPrint(c) <==> 0x20 <= c < 0x7F)) &&
    (forall c: u16 :: c < 0x80 ==> (u.isSpace(c) <==> c == 0x20 || 0x09 <= c <= 0x0D)) &&
    (forall s :: IsAscii(s) ==> u.fromUtf8(s) == Widen(s))
  }

  /** Services that know ASCII only: everything above 0x7F is printable, nothing above is
      white space, and every byte decodes to itself. */
  const AsciiServices: Services :=
    Services(c => 0x20 <= c < 0x7F || 0x80 <= c, c => c == 0x20 || 0x09 <= c <= 0x0D, s => Widen(s))

  lemma AsciiServicesConform()
    ensures Conforms(AsciiServices)
  {
  }

  lemma WidenAppend(s: seq<byte>, t: seq<byte>)
    ensures Widen(s + t) == Widen(s) + Widen(t)
  {
  }
}
