/** What the lines that checktrace.pl accepts mean to the driver: it reads ids as numbers,
    the script compares them as strings. */
module RepTrace {
  import Memory
  import opened Trace
  import opened CheckTrace
  import ExplicitSpec
  import Replay
  import R = Requests

  // ----- reading numbers -----

  predicate IsDigit(c: char) {
    '0' <= c <= '9'
  }

  ghost predicate Digits(s: string) {
    s != "" && forall i :: 0 <= i < |s| ==> IsDigit(s[i])
  }

  /** What %u makes of a string of digits */
  function Value(s: string): nat {
    if s == "" then 0
    else
      var c := s[|s| - 1];
      10 * Value(s[..|s| - 1]) + if IsDigit(c) then c as int - '0' as int else 0
  }

  function Pow10(n: nat): nat {
    if n == 0 then 1 else 10 * Pow10(n - 1)
  }

  lemma LastDigit(s: string)
    requires s != ""
    ensures Value(s) == 10 * Value(s[..|s| - 1]) + if IsDigit(s[|s| - 1]) then s[|s| - 1] as int - '0' as int else 0
  {
  }

  lemma PowTen(x: nat, n: nat)
    ensures x * Pow10(n + 1) == 10 * (x * Pow10(n))
  {
  }

  /** The digits count in tens, the last one first. */
  lemma {:induction false} ValueConcat(a: string, b: string)
    ensures Value(a + b) == Value(a) * Pow10(|b|) + Value(b)
    decreases |b|
  {
    if b == "" {
      assert a + b == a;
      assert Pow10(0) == 1;
    } else {
      var n := |b| - 1;
      var b', c := b[..n], b[n];
      assert (a + b)[..|a + b| - 1] == a + b';
      ValueConcat(a, b');
      hide Pow10, Value, IsDigit;
      LastDigit(a + b);
      LastDigit(b);
      PowTen(Value(a), n);
    }
  }

  /** Every number can be spelled without leading zeros. */
  lemma {:induction false} EverySpelled(n: nat) returns (s: string)
    ensures Canonical(s) && Value(s) == n && (n > 0 ==> s[0] != '0')
  {
    var c := ('0' as int + n % 10) as char;
    if n < 10 {
      s := [c];
      OneDigit(s);
    } else {
      var u := EverySpelled(n / 10);
      s := u + [c];
      assert s[..|s| - 1] == u;
    }
  }

  /** A number without leading zeros */
  ghost predicate Canonical(s: string) {
    Digits(s) && (|s| == 1 || s[0] != '0')
  }

  lemma {:induction false} CanonicalPositive(s: string)
    requires Digits(s) && s[0] != '0'
    ensures Value(s) >= 1
    decreases |s|
  {
    if |s| > 1 {
      CanonicalPositive(s[..|s| - 1]);
    } else {
      assert s[..|s| - 1] == "";
    }
  }

  /** Without leading zeros each number has one spelling. */
  lemma {:induction false} OneSpelling(a: string, b: string)
    requires Canonical(a) && Canonical(b) && Value(a) == Value(b)
    ensures a == b
    decreases |a|
  {
    var a', b' := a[..|a| - 1], b[..|b| - 1];
    assert a == a' + [a[|a| - 1]] && b == b' + [b[|b| - 1]];
    assert Value(a') == Value(b') && a[|a| - 1] == b[|b| - 1];
    if a' == "" || b' == "" {
      assert a' == b' by {
        if a' != "" {
          CanonicalPositive(a');
        }
        if b' != "" {
          CanonicalPositive(b');
        }
      }
    } else {
      OneSpelling(a', b');
    }
  }

  // ----- reading lines -----

  function AfterId(line: string): string {
    var s := SkipSpace(line);
    var u := SkipSpace(s[|Word(s)|..]);
    u[|Word(u)|..]
  }

  /** The third field */
  function Size(line: string): string {
    Word(SkipSpace(AfterId(line)))
  }

  function AfterSize(line: string): string {
    var s := SkipSpace(AfterId(line));
    SkipSpace(s[|Word(s)|..])
  }

  /** A line with the fields that the driver's scanf calls look for, and no others */
  ghost predicate Readable(line: string) {
    && Digits(Id(line))
    && (if Cmd(line) == "f" then Size(line) == ""
        else (Cmd(line) == "a" || Cmd(line) == "r") && Digits(Size(line)) && AfterSize(line) == "")
  }

  ghost predicate AllReadable(lines: seq<string>) {
    forall i {:trigger lines[i]} :: 0 <= i < |lines| ==> Readable(lines[i])
  }

  /** The request read_trace makes of it */
  function Request(line: string): Op {
    if Cmd(line) == "a" then Alloc(Value(Id(line)), Value(Size(line)))
    else if Cmd(line) == "r" then Realloc(Value(Id(line)), Value(Size(line)))
    else Free(Value(Id(line)))
  }

  function Requests(lines: seq<string>): (ops: seq<Op>)
    ensures |ops| == |lines|
  {
    seq(|lines|, i requires 0 <= i < |lines| => Request(lines[i]))
  }

  lemma RequestsPrefix(lines: seq<string>, i: nat)
    requires i <= |lines|
    ensures Requests(lines)[..i] == Requests(lines[..i])
  {
  }

  // ----- when an accepted trace makes sense to the driver -----

  /** The ids in the hash are spellings of different numbers, and these are outstanding. */
  ghost predicate Agrees(hash: map<string, string>, live: map<nat, nat>) {
    && (forall k, k' {:trigger Value(k), Value(k')} :: k in hash && k' in hash && Value(k) == Value(k') ==> k == k')
    && (forall k {:trigger k in hash} :: k in hash ==> Value(k) in live)
    && (forall n {:trigger n in live} :: n in live ==> exists k :: k in hash && Value(k) == n)
  }

  /** The numbers on the line are in range, and an alloc does not name, in whatever
      spelling, a number that is outstanding. */
  ghost predicate Fresh(line: string, hash: map<string, string>, numIds: nat) {
    && (Cmd(line) != "f" ==> Value(Size(line)) < Memory.INT_SPAN)
    && (Cmd(line) == "a" ==> Value(Id(line)) < numIds && forall k {:trigger Value(k)} :: k in hash ==> Value(k) != Value(Id(line)))
  }

  ghost predicate AllFresh(lines: seq<string>, numIds: nat) {
    forall i {:trigger lines[i]} :: 0 <= i < |lines| && Scan(lines[..i]).Read? ==>
      Fresh(lines[i], Scan(lines[..i]).tally.hash, numIds)
  }

  /** One accepted line: the driver can make sense of it exactly if it is fresh, and then
      the two still agree on what is outstanding. */
  lemma LineAgrees(t: Tally, line: string, live: map<nat, nat>, numIds: nat)
    requires Readable(line) && ReadLine(t, line).Read? && Agrees(t.hash, live)
    requires forall k :: k in t.hash ==> t.hash[k] == "a"
    ensures OpOk(Request(line), live, numIds) <==> Fresh(line, t.hash, numIds)
    ensures Fresh(line, t.hash, numIds) ==> Agrees(ReadLine(t, line).tally.hash, Trace.Step(live, Request(line)))
    ensures forall k :: k in ReadLine(t, line).tally.hash ==> ReadLine(t, line).tally.hash[k] == "a"
  {
    hide Readable, Word, SkipSpace, Size, Value;
    KnownCommand(line);
    var id := Id(line);
    if Cmd(line) == "a" {
      assert id !in t.hash;
    }
  }

  lemma KnownCommand(line: string)
    requires Readable(line)
    ensures Truthy(Cmd(line)) && (Cmd(line) == "a" || Cmd(line) == "r" || Cmd(line) == "f")
  {
  }

  lemma WellFormedSnoc(ops: seq<Op>, numIds: nat)
    requires ops != []
    ensures var n := |ops| - 1;
            WellFormed(ops, numIds) <==> WellFormed(ops[..n], numIds) && OpOk(ops[n], Outstanding(ops[..n]), numIds)
  {
    var n := |ops| - 1;
    hide OpOk, Outstanding;
    forall i: nat | i < n
      ensures ops[..n][i] == ops[i] && ops[..n][..i] == ops[..i]
    {
    }
    if WellFormed(ops[..n], numIds) && OpOk(ops[n], Outstanding(ops[..n]), numIds) {
      forall i: nat | i < |ops|
        ensures OpOk(ops[i], Outstanding(ops[..i]), numIds)
      {
        assert i < n ==> OpOk(ops[..n][i], Outstanding(ops[..n][..i]), numIds);
      }
    }
    if WellFormed(ops, numIds) {
      assert OpOk(ops[n], Outstanding(ops[..n]), numIds);
      forall i: nat | i < n
        ensures OpOk(ops[..n][i], Outstanding(ops[..n][..i]), numIds)
      {
        assert OpOk(ops[i], Outstanding(ops[..i]), numIds);
      }
    }
  }

  lemma AllFreshSnoc(lines: seq<string>, numIds: nat)
    requires lines != [] && Scan(lines[..|lines| - 1]).Read?
    ensures var n := |lines| - 1;
            AllFresh(lines, numIds) <==>
            AllFresh(lines[..n], numIds) && Fresh(lines[n], Scan(lines[..n]).tally.hash, numIds)
  {
    var n := |lines| - 1;
    hide Fresh, Scan;
    forall i: nat | i < n
      ensures lines[..n][i] == lines[i] && lines[..n][..i] == lines[..i]
    {
    }
    if AllFresh(lines, numIds) {
      assert Fresh(lines[n], Scan(lines[..n]).tally.hash, numIds);
      forall i | 0 <= i < n && Scan(lines[..n][..i]).Read?
        ensures Fresh(lines[..n][i], Scan(lines[..n][..i]).tally.hash, numIds)
      {
        assert Fresh(lines[i], Scan(lines[..i]).tally.hash, numIds);
      }
    }
    if AllFresh(lines[..n], numIds) && Fresh(lines[n], Scan(lines[..n]).tally.hash, numIds) {
      forall i | 0 <= i < |lines| && Scan(lines[..i]).Read?
        ensures Fresh(lines[i], Scan(lines[..i]).tally.hash, numIds)
      {
        assert i < n ==> Fresh(lines[..n][i], Scan(lines[..n][..i]).tally.hash, numIds);
      }
    }
  }

  /** An accepted trace is one the driver can interpret exactly if its numbers are in range
      and no alloc names an outstanding number in another spelling; then the ids left in the
      hash are those outstanding. */
  lemma {:induction false} AcceptedIff(lines: seq<string>, numIds: nat)
    requires Scan(lines).Read? && AllReadable(lines)
    ensures WellFormed(Requests(lines), numIds) <==> AllFresh(lines, numIds)
    ensures AllFresh(lines, numIds) ==> Agrees(Scan(lines).tally.hash, Outstanding(Requests(lines)))
    ensures forall k :: k in Scan(lines).tally.hash ==> Scan(lines).tally.hash[k] == "a"
    decreases |lines|
  {
    hide Readable, Fresh, OpOk, Agrees, ReadLine, Request, Trace.Step, WellFormed, AllFresh;
    if lines == [] {
      NothingRead(numIds);
    } else {
      var n := |lines| - 1;
      var before, line := lines[..n], lines[n];
      var ops := Requests(lines);
      RequestsPrefix(lines, n);
      forall i | 0 <= i < n
        ensures Readable(before[i])
      {
        assert Readable(lines[i]);
      }
      AcceptedIff(before, numIds);
      WellFormedSnoc(ops, numIds);
      AllFreshSnoc(lines, numIds);
      assert Readable(lines[n]);
      LineAgreesIf(Scan(before).tally, line, Outstanding(ops[..n]), numIds, AllFresh(before, numIds));
    }
  }

  lemma NothingRead(numIds: nat)
    ensures WellFormed(Requests([]), numIds) && AllFresh([], numIds)
    ensures Scan([]) == Read(EMPTY) && Agrees(map[], Outstanding(Requests([])))
  {
    assert Requests([]) == [];
  }

  lemma LineAgreesIf(t: Tally, line: string, live: map<nat, nat>, numIds: nat, agreed: bool)
    requires Readable(line) && ReadLine(t, line).Read? && (agreed ==> Agrees(t.hash, live))
    requires forall k :: k in t.hash ==> t.hash[k] == "a"
    ensures agreed ==> (OpOk(Request(line), live, numIds) <==> Fresh(line, t.hash, numIds))
    ensures agreed && Fresh(line, t.hash, numIds) ==> Agrees(ReadLine(t, line).tally.hash, Trace.Step(live, Request(line)))
    ensures forall k :: k in ReadLine(t, line).tally.hash ==> ReadLine(t, line).tally.hash[k] == "a"
  {
    if agreed {
      LineAgrees(t, line, live, numIds);
    }
    KnownCommand(line);
  }

  // ----- spelling numbers without leading zeros is enough -----

  ghost predicate AllCanonical(lines: seq<string>, numIds: nat) {
    forall i {:trigger lines[i]} :: 0 <= i < |lines| ==>
      && Canonical(Id(lines[i])) && Value(Id(lines[i])) < numIds
      && (Cmd(lines[i]) != "f" ==> Value(Size(lines[i])) < Memory.INT_SPAN)
  }

  lemma {:induction false} HashCanonical(lines: seq<string>, numIds: nat)
    requires Scan(lines).Read? && AllCanonical(lines, numIds)
    ensures forall k :: k in Scan(lines).tally.hash ==> Canonical(k)
    decreases |lines|
  {
    if lines != [] {
      var n := |lines| - 1;
      forall i | 0 <= i < n
        ensures lines[..n][i] == lines[i]
      {
      }
      HashCanonical(lines[..n], numIds);
      assert Canonical(Id(lines[n]));
    }
  }

  /** An accepted trace whose ids are spelled without leading zeros can be interpreted. */
  lemma CanonicalWellFormed(lines: seq<string>, numIds: nat)
    requires Scan(lines).Read? && AllReadable(lines) && AllCanonical(lines, numIds)
    ensures WellFormed(Requests(lines), numIds)
  {
    hide Readable, Canonical, WellFormed;
    AcceptedIff(lines, numIds);
    forall i | 0 <= i < |lines| && Scan(lines[..i]).Read?
      ensures Fresh(lines[i], Scan(lines[..i]).tally.hash, numIds)
    {
      CanonicalFresh(lines, numIds, i);
    }
  }

  lemma CanonicalFresh(lines: seq<string>, numIds: nat, i: nat)
    requires Scan(lines).Read? && AllReadable(lines) && AllCanonical(lines, numIds)
    requires i < |lines| && Scan(lines[..i]).Read?
    ensures Fresh(lines[i], Scan(lines[..i]).tally.hash, numIds)
  {
    hide Scan, Readable, Canonical, Value, Cmd, Id, Size;
    var hash, id := Scan(lines[..i]).tally.hash, Id(lines[i]);
    forall j | 0 <= j < i
      ensures lines[..i][j] == lines[j]
    {
    }
    assert Canonical(id) && Value(id) < numIds;
    assert AllCanonical(lines[..i], numIds) && AllReadable(lines[..i]);
    HashCanonical(lines[..i], numIds);
    AcceptedIff(lines[..i], numIds);
    if Cmd(lines[i]) == "a" {
      NotOutstanding(lines, i);
      forall k | k in hash
        ensures Value(k) != Value(id)
      {
        if Value(k) == Value(id) {
          OneSpelling(k, id);
        }
      }
    }
  }

  /** An accepted alloc names an id that is not in the hash. */
  lemma NotOutstanding(lines: seq<string>, i: nat)
    requires Scan(lines).Read? && i < |lines| && Cmd(lines[i]) == "a" && Scan(lines[..i]).Read?
    requires forall k :: k in Scan(lines[..i]).tally.hash ==> Scan(lines[..i]).tally.hash[k] == "a"
    ensures Id(lines[i]) !in Scan(lines[..i]).tally.hash
  {
    ScanSnoc(lines, i);
    if Scan(lines[..i + 1]).Died? {
      ScanDies(lines, i + 1);
    }
  }

  /** The balanced output of a trace that the driver can interpret leaves nothing
      outstanding. */
  lemma BalancedFreesAll(input: seq<string>, keys: seq<string>, numIds: nat)
    requires Scan(input).Read? && Lists(keys, Scan(input).tally.hash)
    requires var out := Saved(input) + Frees(keys); AllReadable(out) && AllFresh(out, numIds)
    ensures var out := Saved(input) + Frees(keys);
            WellFormed(Requests(out), numIds) && Outstanding(Requests(out)) == map[]
  {
    hide Readable, Fresh, WellFormed;
    var out := Saved(input) + Frees(keys);
    Balanced(input, keys, 0);
    AcceptedIff(out, numIds);
    assert forall n :: n !in Outstanding(Requests(out));
  }

  // ----- two spellings of one number -----

  lemma {:induction false} WordThen(w: string, rest: string)
    requires NoSpace(w) && (rest == "" || IsSpace(rest[0]))
    ensures Word(w + rest) == w
  {
    if w == "" {
      assert w + rest == rest;
    } else {
      WordThen(w[1..], rest);
      assert (w + rest)[1..] == w[1..] + rest;
    }
  }

  lemma AllocFields(id: string, size: string)
    requires Digits(id) && Digits(size)
    ensures var line := "a " + id + " " + size;
            Cmd(line) == "a" && Id(line) == id && Size(line) == size && AfterSize(line) == ""
  {
    hide Word, SkipSpace;
    var tail := " " + size;
    var line := "a" + (" " + (id + tail));
    assert line == "a " + id + " " + size;
    NothingToSkip(line);
    WordThen("a", " " + (id + tail));
    SkipOne(id + tail);
    WordThen(id, tail);
    SkipOne(size);
    WordThen(size, "");
    NothingToSkip("");
    assert line[1..] == " " + (id + tail) && (id + tail)[|id|..] == tail;
    assert size + "" == size && size[|size|..] == "";
  }

  lemma NothingToSkip(s: string)
    requires s == "" || !IsSpace(s[0])
    ensures SkipSpace(s) == s
  {
  }

  lemma SkipOne(s: string)
    requires s == "" || !IsSpace(s[0])
    ensures SkipSpace(" " + s) == s
  {
    assert (" " + s)[1..] == s;
  }

  /** Two allocs of one number in different spellings pass the script; to the driver the
      second names an id that is outstanding. */
  lemma SpelledTwice(a: string, b: string, numIds: nat)
    requires Readable(a) && Readable(b) && Cmd(a) == Cmd(b) == "a"
    requires Id(a) != Id(b) && Value(Id(a)) == Value(Id(b))
    ensures Scan([a, b]).Read? && AllReadable([a, b]) && !WellFormed(Requests([a, b]), numIds)
  {
    hide Readable, Cmd, Id, Size, Value, WellFormed;
    var lines := [a, b];
    assert lines[..1] == [a] && lines[..0] == [] && [a][..0] == [];
    assert Scan([a]) == ReadLine(EMPTY, a);
    assert Scan(lines) == ReadLine(Scan([a]).tally, b);
    AcceptedIff(lines, numIds);
    assert Id(a) in Scan([a]).tally.hash;
    assert !Fresh(lines[1], Scan(lines[..1]).tally.hash, numIds);
  }

  lemma TwoSpellings() returns (lines: seq<string>)
    ensures lines == ["a 1 8", "a 01 8"] && Scan(lines).Read? && AllReadable(lines)
    ensures !WellFormed(Requests(lines), 2)
  {
    lines := ["a 1 8", "a 01 8"];
    hide Cmd, Id, Size, AfterSize, Scan, WellFormed, AllReadable;
    AllocFields("1", "8");
    AllocFields("01", "8");
    assert "a 1 8" == "a " + "1" + " " + "8" && "a 01 8" == "a " + "01" + " " + "8";
    OneDigit("1");
    OneDigit("0");
    assert "01"[..1] == "0";
    SpelledTwice("a 1 8", "a 01 8", 2);
  }

  lemma OneDigit(s: string)
    requires |s| == 1 && IsDigit(s[0])
    ensures Value(s) == s[0] as int - '0' as int
  {
    assert s[..0] == "";
  }

  // ----- from the script to the driver -----

  /** A trace that the script accepts, with ids spelled without leading zeros, positive
      sizes, reallocs of ids whose low byte is below 128 only, and a demand the heap can
      meet, has all that eval_mm_valid needs to return 1 with mm.c. */
  lemma AcceptedPasses(lines: seq<string>, numIds: nat)
    requires Scan(lines).Read? && AllReadable(lines) && AllCanonical(lines, numIds)
    requires AllPassable(Requests(lines))
    requires ExplicitSpec.FLOOR + R.CHUNKSIZE + Replay.Demand(Requests(lines)) <= Memory.MAX_HEAP
    ensures WellFormed(Requests(lines), numIds) && Replay.Replayed(Requests(lines), numIds).At?
  {
    hide Readable, Canonical, WellFormed;
    CanonicalWellFormed(lines, numIds);
    forall i | 0 <= i < |Requests(lines)|
      ensures NonEmpty(Requests(lines)[i])
    {
      assert Passable(Requests(lines)[i]);
    }
    Replay.HeapBounded(Requests(lines), numIds);
  }
}
