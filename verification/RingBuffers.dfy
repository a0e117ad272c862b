/**
 Circular buffers with one slot kept free: `out` is the next slot to read, `inn` the next to write,
 and equal indices mean empty.
 */
module RingBuffers {

  type Byte = bv8

  function Next(len: nat, i: nat): (r: nat)
    requires i < len
    ensures r < len
  {
    if i + 1 == len then 0 else i + 1
  }

  /** The index n slots further, for an advance that does not pass the end of the buffer. */
  function Advance(len: nat, i: nat, n: nat): (r: nat)
    requires i < len && i + n <= len
    ensures r < len
  {
    if i + n == len then 0 else i + n
  }

  function Used(len: nat, out: nat, inn: nat): (u: nat)
    requires out < len && inn < len
    ensures u < len
  {
    if out <= inn then inn - out else len - out + inn
  }

  function Free(len: nat, out: nat, inn: nat): (f: nat)
    requires out < len && inn < len
    ensures f < len
  {
    len - 1 - Used(len, out, inn)
  }

  /** Slot i holds a byte that has been published and not yet consumed. */
  predicate Occupied(len: nat, out: nat, inn: nat, i: nat) {
    if out <= inn then out <= i < inn else out <= i < len || i < inn
  }

  ghost function Contents(buf: seq<Byte>, out: nat, inn: nat): (c: seq<Byte>)
    requires out < |buf| && inn < |buf|
    ensures |c| == Used(|buf|, out, inn)
  {
    if out <= inn then buf[out..inn] else buf[out..] + buf[..inn]
  }

  /** Publishing n filled slots appends them. */
  lemma Publish(buf: seq<Byte>, out: nat, inn: nat, n: nat)
    requires out < |buf| && inn < |buf| && inn + n <= |buf| && n <= Free(|buf|, out, inn)
    ensures Contents(buf, out, Advance(|buf|, inn, n)) == Contents(buf, out, inn) + buf[inn..inn + n]
    ensures Free(|buf|, out, Advance(|buf|, inn, n)) == Free(|buf|, out, inn) - n
  {
    assert buf[inn..][..n] == buf[inn..inn + n];
  }

  lemma PublishOne(buf: seq<Byte>, out: nat, inn: nat)
    requires out < |buf| && inn < |buf| && Next(|buf|, inn) != out
    ensures Contents(buf, out, Next(|buf|, inn)) == Contents(buf, out, inn) + [buf[inn]]
  {
    Publish(buf, out, inn, 1);
    assert buf[inn..inn + 1] == [buf[inn]];
  }

  /** Consuming n slots removes them from the front. */
  lemma Consume(buf: seq<Byte>, out: nat, inn: nat, n: nat)
    requires out < |buf| && inn < |buf| && out + n <= |buf| && n <= Used(|buf|, out, inn)
    ensures Contents(buf, out, inn) == buf[out..out + n] + Contents(buf, Advance(|buf|, out, n), inn)
    ensures Used(|buf|, Advance(|buf|, out, n), inn) == Used(|buf|, out, inn) - n
  {
    var rest := Contents(buf, Advance(|buf|, out, n), inn);
    if out <= inn {
      assert buf[out..inn] == buf[out..out + n] + buf[out + n..inn];
    } else if out + n < |buf| {
      assert buf[out..] + buf[..inn] == buf[out..out + n] + (buf[out + n..] + buf[..inn]);
    } else {
      assert buf[out..] == buf[out..out + n];
    }
    assert Contents(buf, out, inn) == buf[out..out + n] + rest;
  }

  lemma ConsumeOne(buf: seq<Byte>, out: nat, inn: nat)
    requires out < |buf| && inn < |buf| && out != inn
    ensures Contents(buf, out, inn) == [buf[out]] + Contents(buf, Next(|buf|, out), inn)
    ensures Used(|buf|, Next(|buf|, out), inn) == Used(|buf|, out, inn) - 1
  {
    Consume(buf, out, inn, 1);
    assert buf[out..out + 1] == [buf[out]];
  }

  /** The n slots after inn are free when n does not exceed the free space. */
  lemma FreeSlots(len: nat, out: nat, inn: nat, c: nat)
    requires out < len && inn < len && inn + c < len && c < Free(len, out, inn)
    ensures !Occupied(len, out, inn, inn + c)
  {}

  /** Writing outside the occupied slots leaves the contents alone. */
  lemma WriteFree(buf: seq<Byte>, out: nat, inn: nat, i: nat, b: Byte)
    requires out < |buf| && inn < |buf| && i < |buf| && !Occupied(|buf|, out, inn, i)
    ensures Contents(buf[i := b], out, inn) == Contents(buf, out, inn)
  {}

  /** Copying one more byte extends the copied run. */
  lemma CopyOne(buf: seq<Byte>, data: seq<Byte>, at: nat, from: nat, done: nat)
    requires at + done < |buf| && from + done < |data|
    requires buf[at..at + done] == data[from..from + done]
    ensures buf[at + done := data[from + done]][at..at + done + 1] == data[from..from + done + 1]
  {
    var buf' := buf[at + done := data[from + done]];
    assert buf'[at..at + done + 1] == buf[at..at + done] + [data[from + done]];
    assert data[from..from + done + 1] == data[from..from + done] + [data[from + done]];
  }

  // ----- Regrouping sequences -----

  lemma AppendBoth(a: seq<Byte>, b: seq<Byte>, c: seq<Byte>, d: seq<Byte>, e: seq<Byte>)
    requires a + b == c + d
    ensures a + (b + e) == c + (d + e)
  {
    assert a + (b + e) == (a + b) + e;
    assert c + (d + e) == (c + d) + e;
  }

  lemma MoveOne(a: seq<Byte>, b: Byte, c: seq<Byte>)
    ensures a + ([b] + c) == (a + [b]) + c
  {}

  lemma TakeAcross(a: seq<Byte>, b: Byte, c: seq<Byte>, m: nat)
    requires m <= |c|
    ensures a + ([b] + c)[..m + 1] == (a + [b]) + c[..m]
  {
    assert ([b] + c)[..m + 1] == [b] + c[..m];
  }
}
