/**
 * The byte-buffer helpers of the attach pump in `DockerConnection`: the
 * left shift, the length of the non-zero prefix, the detection of the
 * command echo that a TTY sends back, the copy-back after terminal codes
 * are stripped, and the handling of one chunk read from the container's
 * output. Buffers are sequences of signed Java bytes; the in-place array
 * loops of `attachCommand`, `shiftLeft` and `getByteLength` are modelled
 * as loops over a local sequence.
 */
module AttachStream {
  import Seqs

  /** A Java `byte`. */
  type Byte = b: int | -128 <= b < 128

  const LINE_FEED: Byte := 10
  const CARRIAGE_RETURN: Byte := 13

  /** Length of the header that precedes every payload of a non-TTY stream. */
  const HEADER_LENGTH: nat := 8

  function Zeros(k: nat): (r: seq<Byte>)
    ensures |r| == k
    ensures forall i :: 0 <= i < k ==> r[i] == 0
  {
    seq(k, i => 0)
  }

  /** Reference description of the shifted buffer, position by position. */
  function ShiftedLeft(b: seq<Byte>, k: nat): (r: seq<Byte>)
    ensures |r| == |b|
  {
    seq(|b|, i requires 0 <= i < |b| => if k + i < |b| then b[k + i] else 0)
  }

  /**
   * `shiftLeft`: moves `buff[idex..]` to the front and fills the vacated
   * tail with zeros, in place. `shiftLeft`'s loop reads position `idex + i`
   * before it is overwritten only because `idex` is never negative.
   */
  method ShiftLeft(buff: seq<Byte>, idex: nat) returns (r: seq<Byte>)
    ensures |r| == |buff|
    ensures forall i :: 0 <= i < |r| ==> r[i] == (if idex + i < |buff| then buff[idex + i] else 0)
    ensures r == ShiftedLeft(buff, idex)
  {
    r := buff;
    var i := 0;
    while i < |r|
      invariant 0 <= i <= |r| == |buff|
      invariant forall j :: 0 <= j < i ==> r[j] == (if idex + j < |buff| then buff[idex + j] else 0)
      invariant forall j :: i <= j < |r| ==> r[j] == buff[j]
    {
      if idex + i < |r| {
        r := r[i := r[idex + i]];
      } else {
        r := r[i := 0];
      }
      i := i + 1;
    }
    assert forall j :: 0 <= j < |r| ==> r[j] == ShiftedLeft(buff, idex)[j];
  }

  /** Shifting by `k` drops the first `k` bytes and pads with `k` zeros. */
  lemma ShiftedLeftIsDropAndPad(b: seq<Byte>, k: nat)
    requires k <= |b|
    ensures ShiftedLeft(b, k) == b[k..] + Zeros(k)
  {
  }

  /** Two shifts add up. */
  lemma ShiftedLeftTwice(b: seq<Byte>, j: nat, k: nat)
    ensures ShiftedLeft(ShiftedLeft(b, j), k) == ShiftedLeft(b, j + k)
  {
  }

  /**
   * `getByteLength`: the number of non-zero bytes at the start of the
   * buffer. `getByteLength`'s second test (`n == length - 1` with a non-zero
   * last byte) can never hold after the loop: the loop stops early only at
   * a zero byte, so it is kept here as a branch the verifier shows dead.
   */
  method GetByteLength(buff: seq<Byte>) returns (n: nat)
    ensures n <= |buff|
    ensures forall i :: 0 <= i < n ==> buff[i] != 0
    ensures n < |buff| ==> buff[n] == 0
  {
    n := 0;
    while n < |buff| && buff[n] != 0
      invariant n <= |buff|
      invariant forall i :: 0 <= i < n ==> buff[i] != 0
    {
      n := n + 1;
    }
    if n == |buff| - 1 && buff[|buff| - 1] != 0 {
      // `getByteLength` returns the buffer's length here.
      assert false;
    }
  }

  /** Reference definition of the non-zero prefix length. */
  function NonZeroPrefix(b: seq<Byte>): (n: nat)
    ensures n <= |b|
  {
    if |b| == 0 || b[0] == 0 then 0 else 1 + NonZeroPrefix(b[1..])
  }

  /** `GetByteLength` computes exactly `NonZeroPrefix`. */
  lemma {:induction false} NonZeroPrefixUnique(b: seq<Byte>, n: nat)
    requires n <= |b|
    requires forall i :: 0 <= i < n ==> b[i] != 0
    requires n < |b| ==> b[n] == 0
    ensures n == NonZeroPrefix(b)
    decreases n
  {
    if n > 0 {
      NonZeroPrefixUnique(b[1..], n - 1);
    }
  }

  /**
   * The echo test of one position: the byte of the previous command and
   * the received byte differ, neither difference is a CR/LF swap in the
   * exact form `attachCommand` writes it, and the command byte is not padding.
   */
  predicate Mismatch(p: Byte, b: Byte)
  {
    p != b && (p != LINE_FEED && b != CARRIAGE_RETURN) && (p != CARRIAGE_RETURN && b != LINE_FEED) && p != 0
  }

  predicate IsNonZero(p: Byte)
  {
    p != 0
  }

  predicate HasMismatch(prevCmd: seq<Byte>, buff: seq<Byte>)
    requires |prevCmd| <= |buff|
  {
    exists i :: 0 <= i < |prevCmd| && Mismatch(prevCmd[i], buff[i])
  }

  /**
   * Reference definition of the echo index: zero when some position
   * mismatches, otherwise the number of non-zero bytes of the previous
   * command.
   */
  function EchoLength(prevCmd: seq<Byte>, buff: seq<Byte>): nat
    requires |prevCmd| <= |buff|
  {
    if HasMismatch(prevCmd, buff) then 0 else Seqs.Count(prevCmd, IsNonZero)
  }

  /**
   * The echo-detection loop of the output pump: it counts the non-zero
   * command bytes and resets to zero and stops at the first mismatch.
   * `attachCommand`'s arrays both have 1024 bytes; the loop indexes `buff` at
   * every position of `prevCmd`.
   */
  method EchoIndex(prevCmd: seq<Byte>, buff: seq<Byte>) returns (idex: nat)
    requires |prevCmd| <= |buff|
    ensures idex == EchoLength(prevCmd, buff)
  {
    idex := 0;
    var i := 0;
    while i < |prevCmd|
      invariant 0 <= i <= |prevCmd|
      invariant forall j :: 0 <= j < i ==> !Mismatch(prevCmd[j], buff[j])
      invariant idex == Seqs.Count(prevCmd[..i], IsNonZero)
    {
      if Mismatch(prevCmd[i], buff[i]) {
        return 0;
      } else if prevCmd[i] != 0 {
        idex := idex + 1;
      }
      assert prevCmd[..i + 1][..i] == prevCmd[..i];
      i := i + 1;
    }
    assert prevCmd[..i] == prevCmd;
  }

  lemma {:induction false} CountNonZero(c: seq<Byte>)
    requires forall i :: 0 <= i < |c| ==> c[i] != 0
    ensures Seqs.Count(c, IsNonZero) == |c|
    decreases |c|
  {
    if |c| > 0 {
      CountNonZero(c[..|c| - 1]);
    }
  }

  lemma {:induction false} CountZeros(k: nat)
    ensures Seqs.Count(Zeros(k), IsNonZero) == 0
    decreases k
  {
    if k > 0 {
      assert Zeros(k)[..k - 1] == Zeros(k - 1);
      CountZeros(k - 1);
    }
  }

  /**
   * When the previous command is a non-zero byte string followed by
   * padding, and the received buffer begins with exactly that string, the
   * echo index is the command's length.
   */
  lemma EchoOfExactCommand(cmd: seq<Byte>, padding: nat, buff: seq<Byte>)
    requires forall i :: 0 <= i < |cmd| ==> cmd[i] != 0
    requires |cmd| + padding <= |buff| && buff[..|cmd|] == cmd
    ensures EchoLength(cmd + Zeros(padding), buff) == |cmd|
  {
    var prev := cmd + Zeros(padding);
    forall i | 0 <= i < |prev|
      ensures !Mismatch(prev[i], buff[i])
    {
      if i < |cmd| {
        assert buff[i] == buff[..|cmd|][i];
      }
    }
    Seqs.CountAppend(cmd, Zeros(padding), IsNonZero);
    CountNonZero(cmd);
    CountZeros(padding);
  }

  /** Any byte outside the CR/LF pair that differs from a command byte cancels the echo. */
  lemma EchoBrokenByMismatch(prevCmd: seq<Byte>, buff: seq<Byte>, i: nat)
    requires |prevCmd| <= |buff| && i < |prevCmd|
    requires prevCmd[i] != 0 && prevCmd[i] != buff[i]
    requires prevCmd[i] != LINE_FEED && prevCmd[i] != CARRIAGE_RETURN
    requires buff[i] != LINE_FEED && buff[i] != CARRIAGE_RETURN
    ensures EchoLength(prevCmd, buff) == 0
  {
    assert Mismatch(prevCmd[i], buff[i]);
  }

  /** Reference description of the copy-back: the stripped text, cut or zero-padded to the buffer's length. */
  function CopiedBack(buffLength: nat, stripped: seq<Byte>): (r: seq<Byte>)
    ensures |r| == buffLength
  {
    seq(buffLength, i requires 0 <= i < buffLength => if i < |stripped| then stripped[i] else 0)
  }

  /**
   * `removeTerminalCodes`: the terminal-code substitution itself is the
   * parameter `strip`; the method copies its result back over the buffer,
   * zero-fills the rest and returns the length of the non-zero prefix.
   */
  method RemoveTerminalCodes(buff: seq<Byte>, strip: seq<Byte> -> seq<Byte>) returns (r: seq<Byte>, n: nat)
    ensures r == CopiedBack(|buff|, strip(buff))
    ensures n == NonZeroPrefix(r)
  {
    var tmp := strip(buff);
    r := buff;
    var i := 0;
    while i < |r|
      invariant 0 <= i <= |r| == |buff|
      invariant forall j :: 0 <= j < i ==> r[j] == (if j < |tmp| then tmp[j] else 0)
    {
      if i >= |tmp| {
        r := r[i := 0];
      } else {
        r := r[i := tmp[i]];
      }
      i := i + 1;
    }
    n := GetByteLength(r);
    NonZeroPrefixUnique(r, n);
  }

  /** When stripping changes nothing and the buffer has no zero byte, the whole buffer survives. */
  lemma CopyBackIdentity(b: seq<Byte>)
    ensures CopiedBack(|b|, b) == b
  {
  }

  /** What one pass of the output pump does with a chunk: write bytes, or end the pump with an exception. */
  datatype Written = Wrote(bytes: seq<Byte>) | PumpEnded

  /**
   * The TTY branch of one chunk: the echo of the previous command and the
   * line end after it are dropped, terminal codes are stripped, and the
   * non-zero prefix of what remains is written.
   */
  method TtyChunk(prevCmd: seq<Byte>, buff: seq<Byte>, strip: seq<Byte> -> seq<Byte>) returns (out: seq<Byte>)
    requires |prevCmd| <= |buff|
    ensures var e := EchoLength(prevCmd, buff);
            var shifted := if e != 0 then ShiftedLeft(buff, e + 1) else buff;
            var cleaned := CopiedBack(|buff|, strip(shifted));
            out == cleaned[..NonZeroPrefix(cleaned)]
    ensures forall i :: 0 <= i < |out| ==> out[i] != 0
  {
    var b := buff;
    var idex := EchoIndex(prevCmd, b);
    if idex != 0 {
      b := ShiftLeft(b, idex + 1);
    }
    var count;
    b, count := RemoveTerminalCodes(b, strip);
    out := b[..count];
    NonZeroPrefixAllNonZero(b);
  }

  lemma {:induction false} NonZeroPrefixAllNonZero(b: seq<Byte>)
    ensures forall i :: 0 <= i < NonZeroPrefix(b) ==> b[i] != 0
    decreases |b|
  {
    if |b| > 0 && b[0] != 0 {
      NonZeroPrefixAllNonZero(b[1..]);
      forall i | 0 <= i < NonZeroPrefix(b)
        ensures b[i] != 0
      {
        if i > 0 {
          assert b[i] == b[1..][i - 1];
        }
      }
    }
  }

  /**
   * The non-TTY branch of one chunk, for a read of `n` bytes: the header
   * is shifted out and `n - 8` bytes are written. Nothing guards `n < 8`,
   * so a short read makes `write` throw, which ends the pump.
   */
  method HeaderChunk(buff: seq<Byte>, n: int) returns (w: Written)
    requires 0 < n <= |buff|
    ensures n < HEADER_LENGTH ==> w == PumpEnded
    ensures n >= HEADER_LENGTH ==> w == Wrote(buff[HEADER_LENGTH..n])
  {
    var b := ShiftLeft(buff, HEADER_LENGTH);
    var count := n - HEADER_LENGTH;
    if count < 0 || count > |b| {
      return PumpEnded;
    }
    w := Wrote(b[..count]);
    assert b[..count] == buff[HEADER_LENGTH..n];
  }

  /**
   * One chunk of the output pump, for a read of `n > 0` bytes into
   * `buff`: the TTY or the non-TTY treatment.
   */
  method ProcessChunk(tty: bool, prevCmd: seq<Byte>, buff: seq<Byte>, n: int, strip: seq<Byte> -> seq<Byte>)
    returns (w: Written)
    requires 0 < n <= |buff| && |prevCmd| <= |buff|
    ensures !tty && n < HEADER_LENGTH ==> w == PumpEnded
    ensures !tty && n >= HEADER_LENGTH ==> w == Wrote(buff[HEADER_LENGTH..n])
    ensures tty ==> w.Wrote? && forall i :: 0 <= i < |w.bytes| ==> w.bytes[i] != 0
  {
    if tty {
      var out := TtyChunk(prevCmd, buff, strip);
      w := Wrote(out);
    } else {
      w := HeaderChunk(buff, n);
    }
  }

  /**
   * With a TTY and no terminal codes, echoing back exactly the previous
   * command followed by a line end and the output drops the command and
   * the line end and writes the output.
   */
  lemma EchoDropped(cmd: seq<Byte>, padding: nat, lineEnd: Byte, output: seq<Byte>, tail: nat)
    requires 0 < |cmd| && forall i :: 0 <= i < |cmd| ==> cmd[i] != 0
    requires forall i :: 0 <= i < |output| ==> output[i] != 0
    requires |cmd| + padding <= |cmd| + 1 + |output| + tail
    ensures var buff := cmd + [lineEnd] + output + Zeros(tail);
            var shifted := ShiftedLeft(buff, EchoLength(cmd + Zeros(padding), buff) + 1);
            var cleaned := CopiedBack(|buff|, shifted);
            cleaned[..NonZeroPrefix(cleaned)] == output
  {
    var buff := cmd + [lineEnd] + output + Zeros(tail);
    assert buff[..|cmd|] == cmd;
    EchoOfExactCommand(cmd, padding, buff);
    var shifted := ShiftedLeft(buff, |cmd| + 1);
    ShiftedLeftIsDropAndPad(buff, |cmd| + 1);
    assert buff[|cmd| + 1..] == output + Zeros(tail);
    CopyBackIdentity(shifted);
    assert shifted == output + (Zeros(tail) + Zeros(|cmd| + 1));
    NonZeroPrefixUnique(shifted, |output|);
  }
}
