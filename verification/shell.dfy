/** One round of the shell's command loop, shell/src/main.rs: a prompt, a
    line read character by character into a fresh 512-byte buffer with
    every character echoed, and the answer to the command. The console is
    a stream: `getchar` always returns its next character. */
module Shell {
  import opened Bits

  const LINE_MAX: nat := 512
  const CR: uint8 := 13
  const LF: uint8 := 10

  /** The characters `getchar` returns, in order, from the start of time. */
  type Input = nat -> uint8

  /** "> " */
  const PROMPT: seq<uint8> := [0x3e, 0x20]
  /** "hello" */
  const HELLO: seq<uint8> := [0x68, 0x65, 0x6c, 0x6c, 0x6f]
  /** "hello world!" and a newline. */
  const HELLO_REPLY: seq<uint8> := [0x68, 0x65, 0x6c, 0x6c, 0x6f, 0x20, 0x77, 0x6f, 0x72, 0x6c, 0x64, 0x21, 0x0a]
  /** "Unknown command" and a newline. */
  const UNKNOWN_REPLY: seq<uint8> := [0x55, 0x6e, 0x6b, 0x6e, 0x6f, 0x77, 0x6e, 0x20, 0x63, 0x6f, 0x6d, 0x6d, 0x61, 0x6e, 0x64, 0x0a]

  /** The offset, counted from `start`, of the first carriage return among
      the `LINE_MAX` characters from `start` on and at or after offset `i`,
      or `LINE_MAX` if there is none. */
  function CrOffset(input: Input, start: nat, i: nat): (r: nat)
    requires i <= LINE_MAX
    ensures i <= r <= LINE_MAX
    ensures forall p | start + i <= p < start + r :: input(p) != CR
    ensures r < LINE_MAX ==> input(start + r) == CR
    decreases LINE_MAX - i
  {
    if i == LINE_MAX || input(start + i) == CR then i else CrOffset(input, start, i + 1)
  }

  /** The characters from `start` up to `end`. */
  function Chars(input: Input, start: nat, end: nat): (r: seq<uint8>)
    requires start <= end
    ensures |r| == end - start && forall j | 0 <= j < |r| :: r[j] == input(start + j)
  {
    seq(end - start, j requires 0 <= j < end - start => input(start + j))
  }

  lemma CharsSnoc(input: Input, start: nat, end: nat)
    requires start <= end
    ensures Chars(input, start, end + 1) == Chars(input, start, end) + [input(end)]
  {
    assert Chars(input, start, end + 1)[end - start] == input(end);
  }

  /** The line read from `start`: the buffer, the echo printed while
      reading, and where the next read starts. A carriage return ends the
      line, is echoed but not stored, and is followed by a newline; after
      `LINE_MAX` other characters the line ends without one. */
  method ReadLine(input: Input, start: nat) returns (buf: seq<uint8>, echo: seq<uint8>, next: nat)
    ensures var n := CrOffset(input, start, 0);
      && |buf| == LINE_MAX
      && (forall j | 0 <= j < LINE_MAX :: buf[j] == if j < n then input(start + j) else 0)
      && next == start + (if n < LINE_MAX then n + 1 else LINE_MAX)
      && echo == Chars(input, start, next) + (if n < LINE_MAX then [LF] else [])
  {
    buf := seq(LINE_MAX, _ => 0);
    echo := [];
    var i, ended := 0, false;
    while i < LINE_MAX && !ended
      invariant i <= LINE_MAX && |buf| == LINE_MAX
      invariant forall p | start <= p < start + i :: input(p) != CR
      invariant forall j | 0 <= j < LINE_MAX :: buf[j] == if j < i then input(start + j) else 0
      invariant ended ==> i < LINE_MAX && input(start + i) == CR && echo == Chars(input, start, start + i + 1)
      invariant !ended ==> echo == Chars(input, start, start + i)
      decreases LINE_MAX - i, if ended then 0 else 1
    {
      var c := input(start + i);
      CharsSnoc(input, start, start + i);
      echo := echo + [c];
      if c == CR {
        ended := true;
      } else {
        buf := buf[i := c];
        i := i + 1;
      }
    }
    LineEndsAt(input, start, 0, i);
    if ended {
      echo := echo + [LF];
      next := start + i + 1;
    } else {
      next := start + LINE_MAX;
    }
  }

  /** A run of non-carriage-returns from offset `k` up to a carriage return
      (or the end of the line) at offset `i` puts the search's answer at
      `i`. */
  lemma {:induction false} LineEndsAt(input: Input, start: nat, k: nat, i: nat)
    requires k <= i <= LINE_MAX
    requires forall p | start + k <= p < start + i :: input(p) != CR
    requires i == LINE_MAX || input(start + i) == CR
    ensures CrOffset(input, start, k) == i
    decreases i - k
  {
    if k < i {
      LineEndsAt(input, start, k + 1, i);
    }
  }

  /** The answer to a line: a buffer starting with "hello" greets, whatever
      follows it; anything else is an unknown command. */
  function Answer(buf: seq<uint8>): (r: seq<uint8>)
    requires |buf| >= |HELLO|
    ensures buf[..|HELLO|] == HELLO ==> r == HELLO_REPLY
    ensures buf[..|HELLO|] != HELLO ==> r == UNKNOWN_REPLY
  {
    if buf[..|HELLO|] == HELLO then HELLO_REPLY else UNKNOWN_REPLY
  }

  /** The line from `start` is "hello" followed by anything: its first
      five characters are "hello" and come before any carriage return. */
  predicate GreetsLine(input: Input, start: nat) {
    CrOffset(input, start, 0) >= |HELLO| && Chars(input, start, start + |HELLO|) == HELLO
  }

  /** One round of the loop: prompt, read a line, answer it. Returns what
      the console shows and where the next round starts reading. */
  method Round(input: Input, start: nat) returns (shown: seq<uint8>, next: nat)
    ensures var n := CrOffset(input, start, 0);
      && next == start + (if n < LINE_MAX then n + 1 else LINE_MAX)
      && shown == PROMPT + Chars(input, start, next) + (if n < LINE_MAX then [LF] else [])
        + (if GreetsLine(input, start) then HELLO_REPLY else UNKNOWN_REPLY)
  {
    var buf, echo;
    buf, echo, next := ReadLine(input, start);
    Greets(input, start, buf);
    shown := PROMPT + echo + Answer(buf);
  }

  /** The buffer starts with "hello" exactly when the line's first five
      characters are "hello": a shorter line leaves a zero, which "hello"
      does not contain, among the first five bytes. */
  lemma Greets(input: Input, start: nat, buf: seq<uint8>)
    requires |buf| == LINE_MAX
    requires forall j | 0 <= j < LINE_MAX :: buf[j] == if j < CrOffset(input, start, 0) then input(start + j) else 0
    ensures buf[..|HELLO|] == HELLO <==> GreetsLine(input, start)
  {
    var n := CrOffset(input, start, 0);
    if n < |HELLO| {
      assert buf[..|HELLO|][n] == 0;
    } else {
      assert buf[..|HELLO|] == Chars(input, start, start + |HELLO|);
    }
  }
}
