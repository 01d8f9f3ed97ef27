/**
 * `executeCode(code, language, input)`: the stdin fix-up, the language-to-image
 * table and the decoding of the container's log stream. Creating, starting,
 * waiting for and removing the container is an abstract `Backend`.
 */
module Execute {
  import opened Wrappers
  import Text
  import Seqs

  type byte = b: int | 0 <= b < 256

  /** `if (input && !input.endsWith('\n')) input += '\n'`. */
  function PrepareInput(input: string): (r: string)
    ensures r == [] <==> input == []
    ensures |input| <= |r| <= |input| + 1 && r[..|input|] == input
    ensures r != [] ==> r[|r| - 1] == '\n'
    ensures r == input <==> input == [] || input[|input| - 1] == '\n'
  {
    if input != [] && input[|input| - 1] != '\n' then input + "\n" else input
  }

  /** The fix-up changes nothing the second time. */
  lemma PrepareInputIdempotent(input: string)
    ensures PrepareInput(PrepareInput(input)) == PrepareInput(input)
  {
  }

  /** The container images the judge runs code in. */
  datatype Image = OnlineJudgePython | OnlineJudgeJava | OnlineJudgeCpp | OnlineJudgeC

  function ImageName(img: Image): (name: string)
    ensures |name| > 12 && name[..12] == "onlinejudge-"
  {
    match img
    case OnlineJudgePython => "onlinejudge-python"
    case OnlineJudgeJava => "onlinejudge-java"
    case OnlineJudgeCpp => "onlinejudge-cpp"
    case OnlineJudgeC => "onlinejudge-c"
  }

  /** The names the `switch (language.toLowerCase())` accepts for `img`. */
  predicate Names(lowered: string, img: Image) {
    match img
    case OnlineJudgePython => lowered == "python" || lowered == "python3"
    case OnlineJudgeJava => lowered == "java"
    case OnlineJudgeCpp => lowered == "cpp" || lowered == "c++"
    case OnlineJudgeC => lowered == "c"
  }

  /** The language switch: `None` is the `Unsupported language` branch. */
  function ImageFor(language: string): (r: Option<Image>)
    ensures forall img :: r == Some(img) <==> Names(Text.ToLower(language), img)
    ensures r == None <==> forall img :: !Names(Text.ToLower(language), img)
  {
    var l := Text.ToLower(language);
    if l == "python" || l == "python3" then Some(OnlineJudgePython)
    else if l == "java" then Some(OnlineJudgeJava)
    else if l == "cpp" || l == "c++" then Some(OnlineJudgeCpp)
    else if l == "c" then Some(OnlineJudgeC)
    else None
  }

  /** The lookup ignores the case of the language name. */
  lemma ImageForIgnoresCase(language: string)
    ensures ImageFor(language) == ImageFor(Text.ToLower(language))
  {
    Text.ToLowerIdempotent(language);
  }

  lemma Python3Lowered()
    ensures Text.ToLower("Python3") == "python3"
  {
  }

  lemma CppLowered()
    ensures Text.ToLower("C++") == "c++"
  {
  }

  /** Mixed-case names reach the same image. */
  lemma ImageForMixedCase()
    ensures ImageFor("Python3") == Some(OnlineJudgePython)
    ensures ImageFor("C++") == Some(OnlineJudgeCpp)
  {
    Python3Lowered();
    CppLowered();
  }

  /** `go` is a language a submission may name but no image runs. */
  lemma ImageForUnknown()
    ensures ImageFor("Go") == None
  {
    assert Text.ToLower("Go") == "go";
  }

  /** What `container.logs(...)` returns: a `Buffer` of frames, or text. */
  datatype Logs = Multiplexed(bytes: seq<byte>) | Plain(text: string)

  /** The container run: its logs, or the error it threw (`err.toString()`). */
  datatype RunOutcome = Finished(logs: Logs) | Failed(error: string)

  /** Container creation, start, wait-with-timeout and log retrieval for an image, code and stdin. */
  type Backend = (Image, string, string) -> RunOutcome

  /** What one call of `executeCode` gives the judge: the output, or the thrown error's text. */
  datatype CaseOutcome = Ok(output: string) | Err(message: string)

  /** `String(new Error(message))`. */
  function ErrorText(message: string): string {
    "Error: " + message
  }

  /** The text of the error thrown for a language outside the table. */
  const UnsupportedLanguage := ErrorText("Unsupported language")

  /** The text of the error the container wait rejects with after its time limit. */
  const TimeoutError := ErrorText("Timeout")

  /** `Buffer.readUInt32BE(off)`. */
  function ReadUInt32BE(b: seq<byte>, off: nat): (n: nat)
    requires off + 4 <= |b|
    ensures n < 0x1_0000_0000
  {
    ((b[off] as int * 0x100 + b[off + 1]) * 0x100 + b[off + 2]) * 0x100 + b[off + 3]
  }

  /** The inverse of `ReadUInt32BE`: four bytes, most significant first. */
  function EncodeUInt32BE(n: nat): (r: seq<byte>)
    requires n < 0x1_0000_0000
    ensures |r| == 4
  {
    var q1 := n / 0x100;
    var q2 := q1 / 0x100;
    [q2 / 0x100, q2 % 0x100, q1 % 0x100, n % 0x100]
  }

  lemma ReadEncodeUInt32BE(n: nat)
    requires n < 0x1_0000_0000
    ensures ReadUInt32BE(EncodeUInt32BE(n), 0) == n
  {
    var q1 := n / 0x100;
    var q2 := q1 / 0x100;
    assert n == q1 * 0x100 + n % 0x100;
    assert q1 == q2 * 0x100 + q1 % 0x100;
    assert q2 == q2 / 0x100 * 0x100 + q2 % 0x100;
  }

  lemma EncodeReadUInt32BE(b: seq<byte>, off: nat)
    requires off + 4 <= |b|
    ensures EncodeUInt32BE(ReadUInt32BE(b, off)) == b[off..off + 4]
  {
    var n := ReadUInt32BE(b, off);
    var q2 := b[off] as int * 0x100 + b[off + 1];
    var q1 := q2 * 0x100 + b[off + 2];
    assert n == q1 * 0x100 + b[off + 3];
    assert n / 0x100 == q1 && n % 0x100 == b[off + 3];
    assert q1 / 0x100 == q2 && q1 % 0x100 == b[off + 2];
    assert q2 / 0x100 == b[off] && q2 % 0x100 == b[off + 1];
  }

  /** The header declares a payload that fits in `b`: one more frame can be read. */
  predicate HasFrame(b: seq<byte>) {
    |b| >= 8 && 8 + ReadUInt32BE(b, 4) <= |b|
  }

  /**
   * The payloads of the maximal prefix of complete frames, in order. Bytes 0-3 of each
   * header (the stream type and padding) are not looked at.
   */
  function Payloads(b: seq<byte>): seq<seq<byte>>
    decreases |b|
  {
    if HasFrame(b) then
      var n := ReadUInt32BE(b, 4);
      [b[8..8 + n]] + Payloads(b[8 + n..])
    else []
  }

  /** `payload.toString('utf8')`, taken to map each byte to the character with that code. */
  function Decode(p: seq<byte>): (s: string)
    ensures |s| == |p|
    ensures forall i :: 0 <= i < |p| ==> s[i] as int == p[i]
  {
    if p == [] then "" else [p[0] as char] + Decode(p[1..])
  }

  /** The decoded payloads joined in order. */
  function DecodeAll(ps: seq<seq<byte>>): string {
    if ps == [] then "" else Decode(ps[0]) + DecodeAll(ps[1..])
  }

  /** The output `executeCode` returns for the logs it fetched. */
  function LogText(logs: Logs): string {
    match logs
    case Multiplexed(b) => DecodeAll(Payloads(b))
    case Plain(t) => t
  }

  /** The de-framing loop of lines 199-221: `i` advances a whole frame at a time. */
  method DecodeLogs(logs: Logs) returns (output: string)
    ensures output == LogText(logs)
  {
    match logs
    case Plain(t) =>
      output := t;
    case Multiplexed(b) =>
      output := Demultiplex(b);
  }

  method Demultiplex(b: seq<byte>) returns (output: string)
    ensures output == DecodeAll(Payloads(b))
  {
    output := "";
    var i := 0;
    ghost var done: seq<seq<byte>> := [];
    while i < |b|
      invariant 0 <= i <= |b|
      invariant Payloads(b) == done + Payloads(b[i..])
      invariant output == DecodeAll(done)
      decreases |b| - i
    {
      if i + 8 <= |b| {
        var n := ReadUInt32BE(b, i + 4);
        if i + 8 + n <= |b| {
          var j := i + 8 + n;
          var payload := b[i + 8..j];
          ConsumeFrame(b, i, j, payload, done);
          DecodeAllSnoc(done, payload);
          output := output + Decode(payload);
          done := done + [payload];
          i := j;
        } else {
          PayloadsAtEnd(b, i);
          break;
        }
      } else {
        PayloadsAtEnd(b, i);
        break;
      }
    }
    if i == |b| {
      PayloadsAtEnd(b, i);
    }
    Seqs.AppendEmpty(done);
  }

  /** One turn of the loop moves one payload from the unread part to the consumed part. */
  lemma ConsumeFrame(b: seq<byte>, i: nat, j: nat, payload: seq<byte>, done: seq<seq<byte>>)
    requires i + 8 <= |b| && j == i + 8 + ReadUInt32BE(b, i + 4) && j <= |b|
    requires payload == b[i + 8..j]
    requires Payloads(b) == done + Payloads(b[i..])
    ensures Payloads(b) == (done + [payload]) + Payloads(b[j..])
  {
    PayloadsAtFrame(b, i);
    Seqs.Assoc(done, [payload], Payloads(b[j..]));
  }

  lemma {:induction false} DecodeAllSnoc(ps: seq<seq<byte>>, p: seq<byte>)
    ensures DecodeAll(ps + [p]) == DecodeAll(ps) + Decode(p)
  {
    if ps != [] {
      assert (ps + [p])[1..] == ps[1..] + [p];
      DecodeAllSnoc(ps[1..], p);
      assert DecodeAll(ps + [p]) == Decode(ps[0]) + (DecodeAll(ps[1..]) + Decode(p));
    } else {
      assert [] + [p] == [p];
      assert DecodeAll([p]) == Decode(p) + DecodeAll([]);
    }
  }

  /** A frame that starts at `i` and fits is the first payload of the suffix. */
  lemma PayloadsAtFrame(b: seq<byte>, i: nat)
    requires i + 8 <= |b| && i + 8 + ReadUInt32BE(b, i + 4) <= |b|
    ensures var j := i + 8 + ReadUInt32BE(b, i + 4);
      Payloads(b[i..]) == [b[i + 8..j]] + Payloads(b[j..])
  {
    var c := b[i..];
    var n := ReadUInt32BE(b, i + 4);
    assert ReadUInt32BE(c, 4) == n;
    assert c[8..8 + n] == b[i + 8..i + 8 + n];
    assert c[8 + n..] == b[i + 8 + n..];
  }

  /** Where no whole frame starts at `i`, the suffix has no payloads. */
  lemma PayloadsAtEnd(b: seq<byte>, i: nat)
    requires i <= |b| && !(i + 8 <= |b| && i + 8 + ReadUInt32BE(b, i + 4) <= |b|)
    ensures Payloads(b[i..]) == []
  {
    if i + 8 <= |b| {
      assert ReadUInt32BE(b[i..], 4) == ReadUInt32BE(b, i + 4);
    }
  }

  /** What `executeCode` returns or throws, given what the backend does. */
  function Execution(code: string, language: string, input: string, backend: Backend): CaseOutcome {
    match ImageFor(language)
    case None => Err(UnsupportedLanguage)
    case Some(img) =>
      match backend(img, code, PrepareInput(input))
      case Failed(e) => Err(e)
      case Finished(logs) => Ok(LogText(logs))
  }

  method ExecuteCode(code: string, language: string, input: string, backend: Backend) returns (r: CaseOutcome)
    ensures r == Execution(code, language, input, backend)
  {
    var stdin := input;
    if stdin != [] && stdin[|stdin| - 1] != '\n' {
      stdin := stdin + "\n";
    }
    var image := ImageFor(language);
    if image.None? {
      return Err(UnsupportedLanguage);
    }
    var run := backend(image.value, code, stdin);
    match run
    case Failed(e) =>
      r := Err(e);
    case Finished(logs) =>
      var output := DecodeLogs(logs);
      r := Ok(output);
  }

  /** An unknown language fails the same way whatever the backend would have done. */
  lemma UnsupportedNeverRuns(code: string, language: string, input: string, b1: Backend, b2: Backend)
    requires ImageFor(language) == None
    ensures Execution(code, language, input, b1) == Execution(code, language, input, b2) == Err(UnsupportedLanguage)
  {
  }

  /** One multiplexed frame: a 4-byte stream-type-and-padding prefix and a payload. */
  datatype Frame = Frame(prefix: seq<byte>, payload: seq<byte>)

  predicate ValidFrame(f: Frame) {
    |f.prefix| == 4 && |f.payload| < 0x1_0000_0000
  }

  /** The frame as the stream carries it: prefix, big-endian payload length, payload. */
  function EncodeFrame(f: Frame): (r: seq<byte>)
    requires ValidFrame(f)
    ensures |r| == 8 + |f.payload|
  {
    f.prefix + EncodeUInt32BE(|f.payload|) + f.payload
  }

  function EncodeFrames(fs: seq<Frame>): seq<byte>
    requires forall k :: 0 <= k < |fs| ==> ValidFrame(fs[k])
  {
    if fs == [] then [] else EncodeFrame(fs[0]) + EncodeFrames(fs[1..])
  }

  function PayloadsOf(fs: seq<Frame>): (ps: seq<seq<byte>>)
    ensures |ps| == |fs|
  {
    if fs == [] then [] else [fs[0].payload] + PayloadsOf(fs[1..])
  }

  /** Reading one encoded frame gives back its payload and leaves the rest. */
  lemma PayloadsOfEncodedFrame(f: Frame, tail: seq<byte>)
    requires ValidFrame(f)
    ensures Payloads(EncodeFrame(f) + tail) == [f.payload] + Payloads(tail)
  {
    var b := EncodeFrame(f) + tail;
    var n := |f.payload|;
    assert b[4..8] == EncodeUInt32BE(n);
    ReadEncodeUInt32BE(n);
    assert ReadUInt32BE(b, 4) == ReadUInt32BE(EncodeUInt32BE(n), 0);
    assert b[8..8 + n] == f.payload && b[8 + n..] == tail;
  }

  /** De-framing an encoded stream gives back the payloads, whatever the prefixes were. */
  lemma {:induction false} PayloadsOfEncoded(fs: seq<Frame>, tail: seq<byte>)
    requires forall k :: 0 <= k < |fs| ==> ValidFrame(fs[k])
    ensures Payloads(EncodeFrames(fs) + tail) == PayloadsOf(fs) + Payloads(tail)
  {
    if fs != [] {
      var rest := EncodeFrames(fs[1..]) + tail;
      assert EncodeFrames(fs) + tail == EncodeFrame(fs[0]) + rest;
      PayloadsOfEncodedFrame(fs[0], rest);
      PayloadsOfEncoded(fs[1..], tail);
      var ps, qs := PayloadsOf(fs[1..]), Payloads(tail);
      assert PayloadsOf(fs) == [fs[0].payload] + ps;
      assert [fs[0].payload] + (ps + qs) == ([fs[0].payload] + ps) + qs;
    } else {
      assert EncodeFrames(fs) + tail == tail;
    }
  }

  /**
   * Every buffer is a run of complete frames followed by a tail that does not hold a whole
   * frame, and the decoded payloads are exactly those of the run.
   */
  lemma {:induction false} Decompose(b: seq<byte>) returns (fs: seq<Frame>, tail: seq<byte>)
    ensures forall k :: 0 <= k < |fs| ==> ValidFrame(fs[k])
    ensures b == EncodeFrames(fs) + tail && !HasFrame(tail)
    ensures Payloads(b) == PayloadsOf(fs)
    decreases |b|
  {
    if !HasFrame(b) {
      fs, tail := [], b;
      assert EncodeFrames(fs) == [];
    } else {
      var n := ReadUInt32BE(b, 4);
      var f := Frame(b[..4], b[8..8 + n]);
      EncodeReadUInt32BE(b, 4);
      assert EncodeFrame(f) == b[..8 + n];
      var fs', tail' := Decompose(b[8 + n..]);
      fs, tail := [f] + fs', tail';
      assert fs[1..] == fs';
      assert b == EncodeFrame(f) + b[8 + n..];
    }
  }

  /** A truncated or overlong trailing frame contributes nothing. */
  lemma IncompleteTailDropped(fs: seq<Frame>, tail: seq<byte>)
    requires forall k :: 0 <= k < |fs| ==> ValidFrame(fs[k])
    requires !HasFrame(tail)
    ensures Payloads(EncodeFrames(fs) + tail) == PayloadsOf(fs)
  {
    PayloadsOfEncoded(fs, tail);
  }

  /** A frame with an all-zero prefix, as the example streams carry it. */
  lemma ZeroPrefixFrame(payload: seq<byte>, n: byte, tail: seq<byte>)
    requires |payload| == n
    ensures Payloads([0, 0, 0, 0, 0, 0, 0, n] + payload + tail) == [payload] + Payloads(tail)
  {
    var f := Frame([0, 0, 0, 0], payload);
    assert EncodeUInt32BE(n) == [0, 0, 0, n];
    assert EncodeFrame(f) + tail == [0, 0, 0, 0, 0, 0, 0, n] + payload + tail;
    PayloadsOfEncodedFrame(f, tail);
  }

  /** Two zero-prefixed frames in a row decode to their two payloads. */
  lemma TwoZeroPrefixFrames(p: seq<byte>, m: byte, q: seq<byte>, n: byte)
    requires |p| == m && |q| == n
    ensures Payloads([0, 0, 0, 0, 0, 0, 0, m] + p + ([0, 0, 0, 0, 0, 0, 0, n] + q)) == [p, q]
  {
    ZeroPrefixFrame(q, n, []);
    assert [0, 0, 0, 0, 0, 0, 0, n] + q + [] == [0, 0, 0, 0, 0, 0, 0, n] + q;
    ZeroPrefixFrame(p, m, [0, 0, 0, 0, 0, 0, 0, n] + q);
    assert Payloads([]) == [];
  }

  lemma HelloWorldPayloads()
    ensures Payloads([0, 0, 0, 0, 0, 0, 0, 5, 104, 101, 108, 108, 111,
       0, 0, 0, 0, 0, 0, 0, 6, 119, 111, 114, 108, 100, 33])
      == [[104, 101, 108, 108, 111], [119, 111, 114, 108, 100, 33]]
  {
    var hello: seq<byte> := [104, 101, 108, 108, 111];
    var world: seq<byte> := [119, 111, 114, 108, 100, 33];
    TwoZeroPrefixFrames(hello, 5, world, 6);
    assert [0, 0, 0, 0, 0, 0, 0, 5] + hello + ([0, 0, 0, 0, 0, 0, 0, 6] + world)
      == [0, 0, 0, 0, 0, 0, 0, 5, 104, 101, 108, 108, 111,
       0, 0, 0, 0, 0, 0, 0, 6, 119, 111, 114, 108, 100, 33];
  }

  lemma DecodeTwo(p: seq<byte>, q: seq<byte>)
    ensures DecodeAll([p, q]) == Decode(p) + Decode(q)
  {
    assert [p, q][1..] == [q];
    assert DecodeAll([q]) == Decode(q) + DecodeAll([]);
  }

  lemma HelloWorldText()
    ensures DecodeAll([[104, 101, 108, 108, 111], [119, 111, 114, 108, 100, 33]]) == "helloworld!"
  {
    DecodeTwo([104, 101, 108, 108, 111], [119, 111, 114, 108, 100, 33]);
    assert Decode([104, 101, 108, 108, 111]) == "hello";
    assert Decode([119, 111, 114, 108, 100, 33]) == "world!";
  }

  /** Two frames, `[0,0,0,0,0,0,0,5]"hello"` and `[0,0,0,0,0,0,0,6]"world!"`, give `"helloworld!"`. */
  lemma HelloWorldFrames()
    ensures LogText(Multiplexed(
      [0, 0, 0, 0, 0, 0, 0, 5, 104, 101, 108, 108, 111,
       0, 0, 0, 0, 0, 0, 0, 6, 119, 111, 114, 108, 100, 33])) == "helloworld!"
  {
    HelloWorldPayloads();
    HelloWorldText();
  }
}
