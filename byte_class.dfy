/** Classification of one input byte by the main loop of mled: letters of
    either case and digits select a Morse table row, a space is a word gap,
    anything else is reported. */
module ByteClass {
  import opened MorseTable

  /** One byte of the input buffer. */
  newtype byte = x: int | 0 <= x < 256

  /** What the main loop does with one byte. */
  datatype Action =
    | Encode(row: nat)  // play row `row` of the Morse table
    | WordGap           // one blink with the LED off, lasting WS
    | NotAscii          // one diagnostic, nothing else

  predicate IsUpper(b: byte) { 'A' as int <= b as int <= 'Z' as int }
  predicate IsLower(b: byte) { 'a' as int <= b as int <= 'z' as int }
  predicate IsDigit(b: byte) { '0' as int <= b as int <= '9' as int }
  predicate IsSpace(b: byte) { b as int == ' ' as int }

  /** The dispatch decision for one byte. A selected row is always inside the
      table, and it is selected by exactly the letter of that row in either
      case, or by its digit. */
  function Classify(b: byte): (d: Action)
    ensures d.Encode? <==> IsUpper(b) || IsLower(b) || IsDigit(b)
    ensures d.Encode? ==> d.row < |Table|
    ensures d.Encode? && d.row < 26 ==>
              b as int == 'A' as int + d.row || b as int == 'a' as int + d.row
    ensures d.Encode? && d.row >= 26 ==> b as int == '0' as int + d.row - 26
    ensures d.WordGap? <==> IsSpace(b)
    ensures d.NotAscii? <==> !(IsUpper(b) || IsLower(b) || IsDigit(b) || IsSpace(b))
  {
    if IsUpper(b) then Encode(b as int - 'A' as int)
    else if IsLower(b) then Encode(b as int - 'a' as int)
    else if IsDigit(b) then Encode(b as int - '0' as int + 26)
    else if IsSpace(b) then WordGap
    else NotAscii
  }

  /** Upper- and lower-case forms of the k-th letter select the same row, k. */
  lemma CaseFolded(k: nat)
    requires k < 26
    ensures Classify(('A' as int + k) as byte) == Classify(('a' as int + k) as byte) == Encode(k)
  {
  }

  /** Digit d selects row 26 + d. */
  lemma DigitRow(d: nat)
    requires d < 10
    ensures Classify(('0' as int + d) as byte) == Encode(26 + d)
  {
  }
}
