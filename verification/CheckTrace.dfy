/** traces/checktrace.pl: the trace checker and balancer, on the lines of a trace. */
module CheckTrace {

  // ----- splitting a line -----

  predicate IsSpace(c: char) {
    c == ' ' || c == '\t' || c == '\n' || c == '\r' || c as int == 0x0B || c as int == 0x0C
  }

  ghost predicate NoSpace(s: string) {
    forall i :: 0 <= i < |s| ==> !IsSpace(s[i])
  }

  function SkipSpace(s: string): string {
    if s != [] && IsSpace(s[0]) then SkipSpace(s[1..]) else s
  }

  function Word(s: string): (w: string)
    ensures |w| <= |s| && NoSpace(w)
  {
    if s == [] || IsSpace(s[0]) then [] else [s[0]] + Word(s[1..])
  }

  /** The first field of split(" ", line), empty if there is none. */
  function Cmd(line: string): string {
    Word(SkipSpace(line))
  }

  /** The second field. */
  function Id(line: string): (id: string)
    ensures NoSpace(id)
  {
    var s := SkipSpace(line);
    Word(SkipSpace(s[|Word(s)|..]))
  }

  ghost predicate Blank(s: string) {
    forall i :: 0 <= i < |s| ==> IsSpace(s[i])
  }

  lemma {:induction false} Skipped(s: string) returns (blank: string)
    ensures s == blank + SkipSpace(s) && Blank(blank) && (SkipSpace(s) == "" || !IsSpace(SkipSpace(s)[0]))
  {
    if s != [] && IsSpace(s[0]) {
      var b := Skipped(s[1..]);
      blank := [s[0]] + b;
      assert s == [s[0]] + s[1..];
    } else {
      blank := "";
    }
  }

  lemma {:induction false} WordEnds(s: string)
    ensures Word(s) == s[..|Word(s)|] && (|Word(s)| == |s| || IsSpace(s[|Word(s)|]))
  {
    if s != [] && !IsSpace(s[0]) {
      WordEnds(s[1..]);
    }
  }

  /** What Word finds behind the blanks is a whole word, empty only if nothing is left. */
  lemma SplitWord(s: string) returns (blank: string, rest: string)
    ensures var u := SkipSpace(s);
            var w := Word(u);
            && s == blank + w + rest && rest == u[|w|..] && Blank(blank)
            && (rest == "" || IsSpace(rest[0])) && (w == "" ==> rest == "")
  {
    hide IsSpace, Word, SkipSpace;
    blank := Skipped(s);
    var u := SkipSpace(s);
    WordEnds(u);
    rest := u[|Word(u)|..];
    assert u == Word(u) + rest;
    EmptyWord(u);
  }

  lemma EmptyWord(s: string)
    ensures s == "" || IsSpace(s[0]) <==> Word(s) == ""
  {
  }

  /** A line is blanks, the command, blanks, the id and the rest: the command and the id are
      whole words, and they are empty only if nothing but blanks is left. */
  lemma SplitLine(line: string) returns (before: string, between: string, rest: string)
    ensures line == before + Cmd(line) + (between + Id(line) + rest)
    ensures Blank(before) && Blank(between) && NoSpace(Cmd(line)) && NoSpace(Id(line))
    ensures rest == "" || IsSpace(rest[0])
    ensures (Id(line) == "" ==> rest == "") && (Id(line) != "" ==> between != "" && Cmd(line) != "")
  {
    hide IsSpace, Word, SkipSpace, Blank, NoSpace;
    var after;
    before, after := SplitWord(line);
    between, rest := SplitWord(after);
    if Id(line) != "" {
      SpaceBetween(after, between, Id(line), rest);
    }
  }

  lemma SpaceBetween(s: string, between: string, w: string, rest: string)
    requires s == between + w + rest && NoSpace(w) && w != "" && IsSpace(s[0])
    ensures between != ""
  {
    assert (w + rest)[0] == w[0];
    assert "" + w + rest == w + rest;
  }

  /** Perl's truth of a string */
  predicate Truthy(s: string) {
    s != "" && s != "0"
  }

  // ----- the scan -----

  /** HASH and the lines saved so far. */
  datatype Tally = Tally(hash: map<string, string>, lines: seq<string>)

  datatype Outcome = Died | Read(tally: Tally)

  /** One turn of the loop over STDIN. */
  function ReadLine(t: Tally, line: string): Outcome {
    var cmd, id := Cmd(line), Id(line);
    if !Truthy(cmd) then Read(t) else
      var lines := t.lines + [line];
      var has := id in t.hash;
      if cmd == "r" then
        if !has || !Truthy(t.hash[id]) then Died else Read(Tally(t.hash, lines))
      else if cmd == "a" && has && t.hash[id] == "a" then Died
      else if cmd == "a" && has && t.hash[id] == "f" then Died
      else if cmd == "f" && !has then Died
      else if cmd == "f" then Read(Tally(t.hash - {id}, lines))
      else Read(Tally(t.hash[id := cmd], lines))
  }

  const EMPTY: Tally := Tally(map[], [])

  /** The state of the loop after the lines of input. */
  function Scan(input: seq<string>): Outcome {
    if input == [] then Read(EMPTY)
    else
      match Scan(input[..|input| - 1])
      case Died => Died
      case Read(t) => ReadLine(t, input[|input| - 1])
  }

  // ----- what the scan comes to, stated on the input alone -----

  /** The lines of input that have a command. */
  function Saved(input: seq<string>): seq<string> {
    if input == [] then []
    else
      var n := |input| - 1;
      Saved(input[..n]) + if Truthy(Cmd(input[n])) then [input[n]] else []
  }

  /** The line enters or deletes id: any command but r does. */
  ghost predicate Names(line: string, id: string) {
    Truthy(Cmd(line)) && Cmd(line) != "r" && Id(line) == id
  }

  /** Of the first n lines, the last one that names id has the command c, not f. */
  ghost predicate HeldAs(input: seq<string>, n: nat, id: string, c: string)
    requires n <= |input|
  {
    c != "f" && exists i {:trigger input[i]} :: 0 <= i < n && Names(input[i], id) && Cmd(input[i]) == c
                                                && forall j {:trigger input[j]} :: i < j < n ==> !Names(input[j], id)
  }

  ghost predicate Held(input: seq<string>, n: nat, id: string)
    requires n <= |input|
  {
    exists c :: HeldAs(input, n, id, c)
  }

  /** Line n is no error: an r or an f names an id that is held there, an a one that is not
      held by an a. */
  ghost predicate Legal(input: seq<string>, n: nat)
    requires n < |input|
  {
    var cmd, id := Cmd(input[n]), Id(input[n]);
    if cmd == "r" || cmd == "f" then Held(input, n, id)
    else cmd == "a" ==> !HeldAs(input, n, id, "a")
  }

  ghost predicate AllLegal(input: seq<string>, n: nat)
    requires n <= |input|
  {
    forall i {:trigger Legal(input, i)} :: 0 <= i < n ==> Legal(input, i)
  }

  /** The hash maps the held ids to the commands they are held by. */
  ghost predicate Tallies(hash: map<string, string>, input: seq<string>, n: nat)
    requires n <= |input|
  {
    forall id, c {:trigger HeldAs(input, n, id, c)} :: id in hash && hash[id] == c <==> HeldAs(input, n, id, c)
  }

  /** What a line does to who holds an id */
  lemma HeldSnoc(input: seq<string>, n: nat, id: string, c: string)
    requires n < |input|
    ensures HeldAs(input, n + 1, id, c) <==>
            if Names(input[n], id) then Cmd(input[n]) == c && c != "f" else HeldAs(input, n, id, c)
  {
    hide Names;
    if Names(input[n], id) {
      if Cmd(input[n]) == c && c != "f" {
        assert input[n] == input[n];
      }
    } else {
      if HeldAs(input, n, id, c) {
        var i :| 0 <= i < n && Names(input[i], id) && Cmd(input[i]) == c && forall j {:trigger input[j]} :: i < j < n ==> !Names(input[j], id);
        assert forall j {:trigger input[j]} :: i < j < n + 1 ==> !Names(input[j], id);
      }
      if HeldAs(input, n + 1, id, c) {
        var i :| 0 <= i < n + 1 && Names(input[i], id) && Cmd(input[i]) == c && forall j {:trigger input[j]} :: i < j < n + 1 ==> !Names(input[j], id);
        assert i != n;
      }
    }
  }

  lemma TalliedHeld(hash: map<string, string>, input: seq<string>, n: nat, id: string)
    requires n <= |input| && Tallies(hash, input, n)
    ensures id in hash <==> Held(input, n, id)
    ensures id in hash ==> Truthy(hash[id]) && hash[id] != "f" && HeldAs(input, n, id, hash[id])
  {
    hide Cmd, Id;
    if id in hash {
      assert HeldAs(input, n, id, hash[id]);
    }
  }

  /** One line: it is refused exactly if it is not legal; if it has a command it is saved;
      the hash follows. */
  lemma LineLaw(t: Tally, input: seq<string>, n: nat)
    requires n < |input| && Tallies(t.hash, input, n)
    ensures var o := ReadLine(t, input[n]);
            && (o.Read? <==> Legal(input, n))
            && (o.Read? ==> Tallies(o.tally.hash, input, n + 1)
                            && o.tally.lines == t.lines + if Truthy(Cmd(input[n])) then [input[n]] else [])
  {
    var cmd, id, o := Cmd(input[n]), Id(input[n]), ReadLine(t, input[n]);
    TalliedHeld(t.hash, input, n, id);
    hide Cmd, Id;
    assert HeldAs(input, n, id, "a") <==> id in t.hash && t.hash[id] == "a";
    hide HeldAs, Held;
    if o.Read? {
      forall k, c {:trigger HeldAs(input, n + 1, k, c)}
        ensures k in o.tally.hash && o.tally.hash[k] == c <==> HeldAs(input, n + 1, k, c)
      {
        HeldSnoc(input, n, k, c);
        assert HeldAs(input, n, k, c) <==> k in t.hash && t.hash[k] == c;
      }
    }
  }

  /** The scan accepts exactly the inputs whose lines are all legal; it saves the lines that
      have a command, all of them, in order; and it tallies the ids that are held. */
  lemma {:induction false} ScanLaw(input: seq<string>, n: nat)
    requires n <= |input|
    ensures Scan(input[..n]).Read? <==> AllLegal(input, n)
    ensures AllLegal(input, n) ==>
              Scan(input[..n]).tally.lines == Saved(input[..n]) && Tallies(Scan(input[..n]).tally.hash, input, n)
  {
    hide ReadLine, Cmd, Id, Legal, Tallies;
    if n == 0 {
      NothingHeld(input);
    } else {
      ScanLaw(input, n - 1);
      ScanSnoc(input, n - 1);
      assert input[..n][..n - 1] == input[..n - 1];
      if AllLegal(input, n - 1) {
        LineLaw(Scan(input[..n - 1]).tally, input, n - 1);
      }
      assert AllLegal(input, n) <==> AllLegal(input, n - 1) && Legal(input, n - 1);
    }
  }

  lemma NothingHeld(input: seq<string>)
    ensures Tallies(map[], input, 0)
  {
  }

  /** So the outcome of the scan is determined by the input, line by line. */
  lemma ScanIff(input: seq<string>, t: Tally)
    ensures Scan(input) == Read(t) <==>
            AllLegal(input, |input|) && t.lines == Saved(input) && Tallies(t.hash, input, |input|)
  {
    ScanLaw(input, |input|);
    assert input[..|input|] == input;
    if AllLegal(input, |input|) && Tallies(t.hash, input, |input|) {
      TalliesUnique(t.hash, Scan(input).tally.hash, input, |input|);
    }
  }

  lemma TalliesUnique(h: map<string, string>, h': map<string, string>, input: seq<string>, n: nat)
    requires n <= |input| && Tallies(h, input, n) && Tallies(h', input, n)
    ensures h == h'
  {
    hide HeldAs;
    forall id | id in h
      ensures id in h' && h'[id] == h[id]
    {
      assert HeldAs(input, n, id, h[id]);
    }
    forall id | id in h'
      ensures id in h
    {
      assert HeldAs(input, n, id, h'[id]);
    }
  }

  /** The request that frees block id */
  function FreeLine(id: string): string {
    "f " + id
  }

  function Frees(keys: seq<string>): (lines: seq<string>)
    ensures |lines| == |keys|
  {
    seq(|keys|, i requires 0 <= i < |keys| => FreeLine(keys[i]))
  }

  /** keys lists the ids in the residue, each once; the order is that of Perl's sort. */
  ghost predicate Lists(keys: seq<string>, hash: map<string, string>) {
    && (forall i, j :: 0 <= i < j < |keys| ==> keys[i] != keys[j])
    && (forall k :: k in keys <==> k in hash)
  }

  /** Every outstanding id was last named by an a or an r. */
  ghost predicate Balanceable(hash: map<string, string>) {
    forall k :: k in hash ==> hash[k] == "a" || hash[k] == "r"
  }

  class Checker {
    var hash: map<string, string>
    var lines: seq<string>

    constructor ()
      ensures State() == EMPTY
    {
      hash, lines := map[], [];
    }

    function State(): Tally
      reads this
    {
      Tally(hash, lines)
    }

    /** The reading loop; dies on an inconsistent line. */
    method ReadTrace(input: seq<string>) returns (ok: bool)
      requires State() == EMPTY
      modifies this
      ensures ok <==> Scan(input).Read?
      ensures ok ==> State() == Scan(input).tally
      ensures ok <==> AllLegal(input, |input|)
      ensures ok ==> lines == Saved(input) && Tallies(hash, input, |input|)
    {
      ScanLaw(input, |input|);
      assert input[..|input|] == input;
      hide AllLegal, Tallies, Saved;
      for i := 0 to |input|
        invariant Scan(input[..i]) == Read(State())
      {
        ScanSnoc(input, i);
        var line := input[i];
        var cmd, id := Cmd(line), Id(line);
        if !Truthy(cmd) {
          continue;
        }
        if cmd == "r" {
          if id !in hash || !Truthy(hash[id]) {
            ScanDies(input, i + 1);
            return false;
          }
          lines := lines + [line];
          continue;
        }
        if (cmd == "a" && id in hash && hash[id] == "a")
          || (cmd == "a" && id in hash && hash[id] == "f")
          || (cmd == "f" && id !in hash) {
          ScanDies(input, i + 1);
          return false;
        }
        lines := lines + [line];
        if cmd == "f" {
          hash := hash - {id};
        } else {
          hash := hash[id := cmd];
        }
      }
      ok := true;
    }

    /** The balancing output: the new request count and the request lines.  keys is what
        sort keys %HASH returns. */
    method Emit(oldNumOps: int, keys: seq<string>) returns (ok: bool, numOps: int, output: seq<string>)
      requires Lists(keys, hash)
      ensures ok <==> Balanceable(hash)
      ensures numOps == oldNumOps + |keys|
      ensures ok ==> output == lines + Frees(keys)
      ensures ok ==> |output| == |lines| + |keys| && forall i :: 0 <= i < |keys| ==> output[|lines| + i] == "f " + keys[i]
    {
      numOps := oldNumOps + |keys|;
      output := lines;
      for i := 0 to |keys|
        invariant output == lines + Frees(keys)[..i]
        invariant forall j :: 0 <= j < i ==> hash[keys[j]] == "a" || hash[keys[j]] == "r"
      {
        var key := keys[i];
        assert key in keys;
        if hash[key] != "a" && hash[key] != "r" {
          return false, numOps, output;
        }
        output := output + [FreeLine(key)];
        assert Frees(keys)[..i + 1] == Frees(keys)[..i] + [FreeLine(key)];
      }
      assert Frees(keys)[..|keys|] == Frees(keys);
      ok := true;
    }
  }

  lemma ScanSnoc(input: seq<string>, i: nat)
    requires i < |input|
    ensures Scan(input[..i + 1]) == match Scan(input[..i])
                                    case Died => Died
                                    case Read(t) => ReadLine(t, input[i])
  {
    assert input[..i + 1][..i] == input[..i];
  }

  lemma {:induction false} ScanDies(input: seq<string>, i: nat)
    requires i <= |input| && Scan(input[..i]).Died?
    ensures Scan(input).Died?
    decreases |input| - i
  {
    if i == |input| {
      assert input[..i] == input;
    } else {
      ScanSnoc(input, i);
      ScanDies(input, i + 1);
    }
  }

  // ----- the frees that were added -----

  lemma {:induction false} WordOfNoSpace(s: string)
    requires NoSpace(s)
    ensures Word(s) == s && (s != [] ==> SkipSpace(s) == s)
  {
    if s != [] {
      WordOfNoSpace(s[1..]);
    }
  }

  /** A printed free reads back as a free of the same id. */
  lemma FreeLineFields(id: string)
    requires NoSpace(id)
    ensures Cmd(FreeLine(id)) == "f" && Id(FreeLine(id)) == id
  {
    var line := FreeLine(id);
    assert line[0] == 'f' && line[1] == ' ' && line[2..] == id;
    assert SkipSpace(line) == line;
    assert line[1..][0] == ' ';
    assert Word(line[1..]) == [];
    assert Word(line) == "f";
    assert line[1..][1..] == id;
    assert SkipSpace(line[1..]) == SkipSpace(id);
    WordOfNoSpace(id);
  }

  /** Ids never contain a blank. */
  lemma {:induction false} IdsNoSpace(input: seq<string>)
    requires Scan(input).Read?
    ensures forall k :: k in Scan(input).tally.hash ==> NoSpace(k)
  {
    if input != [] {
      IdsNoSpace(input[..|input| - 1]);
    }
  }

  /** Only lines with a command are saved, and scanning them alone comes to the same. */
  lemma {:induction false} SavedLines(input: seq<string>)
    requires Scan(input).Read?
    ensures Scan(Scan(input).tally.lines) == Scan(input)
  {
    if input != [] {
      var before := input[..|input| - 1];
      SavedLines(before);
      var t, line := Scan(before).tally, input[|input| - 1];
      if Truthy(Cmd(line)) {
        assert (t.lines + [line])[..|t.lines|] == t.lines;
      }
    }
  }

  ghost function Elements(s: seq<string>): set<string> {
    set k | k in s
  }

  lemma ElementsSnoc(s: seq<string>, n: nat)
    requires n < |s|
    ensures Elements(s[..n + 1]) == Elements(s[..n]) + {s[n]}
  {
    assert s[..n + 1] == s[..n] + [s[n]];
  }

  /** The frees of the first n listed ids are all accepted and take those ids out. */
  lemma {:induction false} ScanFrees(lines: seq<string>, keys: seq<string>, n: nat)
    requires Scan(lines).Read? && Lists(keys, Scan(lines).tally.hash) && n <= |keys|
    requires Scan(lines).tally.lines == lines
    requires forall k :: k in keys ==> NoSpace(k)
    ensures var out := lines + Frees(keys)[..n];
            Scan(out) == Read(Tally(Scan(lines).tally.hash - Elements(keys[..n]), out))
  {
    hide ReadLine, Scan, Frees, NoSpace, Elements;
    if n == 0 {
      NoFrees(lines, keys);
    } else {
      ScanFrees(lines, keys, n - 1);
      ScanFree(lines, keys, n - 1);
    }
  }

  lemma NoFrees(lines: seq<string>, keys: seq<string>)
    ensures lines + Frees(keys)[..0] == lines && Elements(keys[..0]) == {}
  {
  }

  lemma ScanFree(lines: seq<string>, keys: seq<string>, n: nat)
    requires Scan(lines).Read? && Lists(keys, Scan(lines).tally.hash) && n < |keys|
    requires NoSpace(keys[n])
    requires Scan(lines + Frees(keys)[..n]) ==
             Read(Tally(Scan(lines).tally.hash - Elements(keys[..n]), lines + Frees(keys)[..n]))
    ensures Scan(lines + Frees(keys)[..n + 1]) ==
            Read(Tally(Scan(lines).tally.hash - Elements(keys[..n + 1]), lines + Frees(keys)[..n + 1]))
  {
    hide ReadLine, Scan, Frees, FreeLine, NoSpace, Elements;
    var before, line := lines + Frees(keys)[..n], FreeLine(keys[n]);
    var hash := Scan(lines).tally.hash;
    FreesSnoc(keys, n);
    assert lines + Frees(keys)[..n + 1] == before + [line];
    ScanAppend(before, line);
    StillListed(keys, hash, n);
    ReadFree(Tally(hash - Elements(keys[..n]), before), keys[n]);
    ElementsSnoc(keys, n);
    assert hash - Elements(keys[..n + 1]) == hash - Elements(keys[..n]) - {keys[n]};
  }

  lemma FreesSnoc(keys: seq<string>, n: nat)
    requires n < |keys|
    ensures Frees(keys)[..n + 1] == Frees(keys)[..n] + [FreeLine(keys[n])]
  {
  }

  lemma StillListed(keys: seq<string>, hash: map<string, string>, n: nat)
    requires Lists(keys, hash) && n < |keys|
    ensures keys[n] in hash - Elements(keys[..n])
  {
    assert keys[n] in keys;
  }

  lemma ScanAppend(input: seq<string>, line: string)
    requires Scan(input).Read?
    ensures Scan(input + [line]) == ReadLine(Scan(input).tally, line)
  {
    assert (input + [line])[..|input|] == input;
  }

  /** A free of an outstanding id takes that id out. */
  lemma ReadFree(t: Tally, id: string)
    requires NoSpace(id) && id in t.hash
    ensures ReadLine(t, FreeLine(id)) == Read(Tally(t.hash - {id}, t.lines + [FreeLine(id)]))
  {
    FreeLineFields(id);
  }

  /** The balanced trace scans without error to an empty residue and is saved whole; it
      begins with the requests of the input, all of them and in order, and its count is
      right if the input's was. */
  lemma Balanced(input: seq<string>, keys: seq<string>, oldNumOps: int)
    requires Scan(input).Read? && Lists(keys, Scan(input).tally.hash)
    ensures Scan(input).tally.lines == Saved(input)
    ensures var out := Saved(input) + Frees(keys);
            && Scan(out) == Read(Tally(map[], out))
            && Saved(input) <= out
            && (oldNumOps == |Saved(input)| ==> oldNumOps + |keys| == |out|)
  {
    var t := Scan(input).tally;
    ScanIff(input, t);
    SavedLines(input);
    IdsNoSpace(input);
    ScanFrees(t.lines, keys, |keys|);
    assert Frees(keys)[..|keys|] == Frees(keys) && keys[..|keys|] == keys;
    assert t.hash - Elements(keys) == map[];
  }

  /** Balancing a balanced trace changes nothing. */
  lemma BalancedTwice(input: seq<string>, keys: seq<string>, keys': seq<string>)
    requires Scan(input).Read? && Lists(keys, Scan(input).tally.hash)
    ensures var out := Saved(input) + Frees(keys);
            Scan(out).Read? && Balanceable(Scan(out).tally.hash)
            && (Lists(keys', Scan(out).tally.hash) ==> Saved(out) + Frees(keys') == out)
  {
    Balanced(input, keys, 0);
    var out := Saved(input) + Frees(keys);
    ScanIff(out, Scan(out).tally);
    assert |keys'| > 0 ==> keys'[0] in keys';
  }

  /** In an accepted trace every f and every r names an id that is outstanding there. */
  lemma {:induction false} NamesLiveIds(input: seq<string>, i: nat)
    requires Scan(input).Read? && i < |input| && (Cmd(input[i]) == "f" || Cmd(input[i]) == "r")
    ensures Scan(input[..i]).Read? && Id(input[i]) in Scan(input[..i]).tally.hash
  {
    if Scan(input[..i + 1]).Died? {
      ScanDies(input, i + 1);
    }
    ScanSnoc(input, i);
  }

  // ----- commands other than a, r and f -----

  ghost predicate KnownCommands(input: seq<string>) {
    forall i {:trigger input[i]} :: 0 <= i < |input| && Truthy(Cmd(input[i])) ==>
      Cmd(input[i]) == "a" || Cmd(input[i]) == "r" || Cmd(input[i]) == "f"
  }

  /** If every command is a, r or f, the residue holds allocs only and can be balanced. */
  lemma {:induction false} KnownAreBalanceable(input: seq<string>)
    requires Scan(input).Read? && KnownCommands(input)
    ensures forall k :: k in Scan(input).tally.hash ==> Scan(input).tally.hash[k] == "a"
    ensures Balanceable(Scan(input).tally.hash)
  {
    if input != [] {
      var before := input[..|input| - 1];
      assert KnownCommands(before);
      KnownAreBalanceable(before);
      var line := input[|input| - 1];
      assert input[|input| - 1] == line;
    }
  }

  /** Any other command counts as an allocation, so a free of it passes. */
  lemma UnknownCommandAllocates(t: Tally, line: string, id: string)
    requires Truthy(Cmd(line)) && Cmd(line) != "a" && Cmd(line) != "r" && Cmd(line) != "f"
    requires Id(line) == id && NoSpace(id)
    ensures ReadLine(t, line).Read? && ReadLine(t, line).tally.hash == t.hash[id := Cmd(line)]
    ensures ReadLine(ReadLine(t, line).tally, FreeLine(id)).Read?
    ensures !Balanceable(ReadLine(t, line).tally.hash)
  {
    FreeLineFields(id);
    assert id in ReadLine(t, line).tally.hash;
  }
}
