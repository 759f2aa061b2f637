/** The cap on tool output: measured in UTF-8 bytes, cut in characters. */
module ToolOutput {

  const SUFFIX := "\n...[truncated tool output]"

  function CharBytes(c: char): nat {
    var u := c as int;
    if u < 0x80 then 1 else if u < 0x800 then 2 else if u < 0x1_0000 then 3 else 4
  }

  lemma Utf8Widths(c: char)
    ensures CharBytes(c) <= 1 <==> c as int <= 0x7F
    ensures CharBytes(c) <= 2 <==> c as int <= 0x7FF
    ensures CharBytes(c) <= 3 <==> c as int <= 0xFFFF
    ensures 1 <= CharBytes(c) <= 4
  {
  }

  function Bytes(s: string): nat {
    if s == "" then 0 else CharBytes(s[0]) + Bytes(s[1..])
  }

  function Capped(output: string, max: nat, suffix: string): string {
    if Bytes(output) > max then (if |output| > max then output[..max] else output) + suffix else output
  }

  function CapToolResponse(output: string, max: nat): string {
    Capped(output, max, SUFFIX)
  }

  lemma {:induction false} BytesPerChar(s: string)
    ensures |s| <= Bytes(s) <= 4 * |s|
  {
    if s == "" {
    } else {
      BytesPerChar(s[1..]);
    }
  }

  lemma {:induction false} BytesConcat(s: string, t: string)
    ensures Bytes(s + t) == Bytes(s) + Bytes(t)
  {
    if s == "" {
      assert s + t == t;
    } else {
      BytesConcat(s[1..], t);
      assert (s + t)[1..] == s[1..] + t;
    }
  }

  lemma CappedBytes(output: string, max: nat, suffix: string)
    ensures suffix != "" ==> (Bytes(Capped(output, max, suffix)) <= max <==> Bytes(output) <= max)
    ensures Bytes(Capped(output, max, suffix)) <= 4 * (max + |suffix|)
  {
    var head := if |output| > max then output[..max] else output;
    BytesPerChar(head);
    BytesPerChar(suffix);
    BytesConcat(head, suffix);
  }

  /** The first max characters. */
  function Head(output: string, max: nat): string {
    if |output| > max then output[..max] else output
  }

  lemma CappedKeeps(output: string, max: nat, suffix: string)
    ensures Capped(output, max, suffix) == if Bytes(output) <= max then output else Head(output, max) + suffix
  {
    hide Bytes;
  }

  /** What fits is passed on as it is; of the rest the first max characters are kept and marked. */
  lemma CapKeeps(output: string, max: nat)
    ensures CapToolResponse(output, max) == if Bytes(output) <= max then output else Head(output, max) + SUFFIX
    ensures Head(output, max) <= output && |Head(output, max)| == if |output| <= max then |output| else max
  {
    hide Bytes, Capped;
    CappedKeeps(output, max, SUFFIX);
  }

  /** The capped output obeys the byte limit only if nothing had to be cut: a cut one always
      exceeds it, though by a bounded amount. */
  lemma CapHoldsIff(output: string, max: nat)
    ensures Bytes(CapToolResponse(output, max)) <= max <==> Bytes(output) <= max
    ensures Bytes(CapToolResponse(output, max)) <= 4 * (max + |SUFFIX|)
  {
    CappedBytes(output, max, SUFFIX);
  }
}
