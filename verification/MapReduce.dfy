// core/mapper.c and core/reducer.c on the chunks of splitter.c: what mappers and the reducer make of a file
// does not depend on how it is split, nor on the order in which the mappers' records arrive.
module MapReduce {
  import opened Sequences
  import opened Splitter

  const RETURN: int := 13

  // ---------- lines ----------

  // What getline returns, one line after the other, each with its newline.
  function Lines(data: seq<int>): (r: seq<seq<int>>) {
    if data == [] then [] else [data[..LineEnd(data, 0)]] + Lines(data[LineEnd(data, 0)..])
  }

  lemma {:induction false} LineEndOfPrefix(a: seq<int>, b: seq<int>, p: nat)
    requires p < |a| && a[|a| - 1] == NEWLINE
    ensures LineEnd(a + b, p) == LineEnd(a, p)
    decreases |a| - p
  {
    if a[p] != NEWLINE {
      LineEndOfPrefix(a, b, p + 1);
    }
  }

  lemma FirstLine(a: seq<int>, b: seq<int>)
    requires a != [] && a[|a| - 1] == NEWLINE
    ensures var n := LineEnd(a, 0); Lines(a + b) == [a[..n]] + Lines(a[n..] + b)
  {
    var n := LineEnd(a, 0);
    LineEndOfPrefix(a, b, 0);
    assert (a + b)[..n] == a[..n] && (a + b)[n..] == a[n..] + b;
  }

  // A cut at the end of a line splits the sequence of lines.
  lemma {:induction false} LinesOfParts(a: seq<int>, b: seq<int>)
    requires a == [] || a[|a| - 1] == NEWLINE
    ensures Lines(a + b) == Lines(a) + Lines(b)
  {
    if a == [] {
      assert a + b == b;
    } else {
      var n := LineEnd(a, 0);
      FirstLine(a, b);
      LinesOfParts(a[n..], b);
    }
  }

  function Concatenated(pieces: seq<seq<int>>): seq<int> {
    if pieces == [] then [] else pieces[0] + Concatenated(pieces[1..])
  }

  // The lines one after the other are the file. None of them is empty, every one but the last ends with a newline,
  // and there is no newline elsewhere.
  predicate IsLine(line: seq<int>) {
    line != [] && forall j :: 0 <= j < |line| - 1 ==> line[j] != NEWLINE
  }

  lemma {:induction false} LinesAre(data: seq<int>)
    ensures Concatenated(Lines(data)) == data
    ensures forall i :: 0 <= i < |Lines(data)| ==>
      IsLine(Lines(data)[i]) && (i < |Lines(data)| - 1 ==> Lines(data)[i][|Lines(data)[i]| - 1] == NEWLINE)
  {
    if data != [] {
      var n := LineEnd(data, 0);
      LinesAre(data[n..]);
      assert data == data[..n] + data[n..];
      assert IsLine(data[..n]);
      forall i | 0 < i < |Lines(data)| ensures Lines(data)[i] == Lines(data[n..])[i - 1] {
      }
    }
  }

  // ---------- the mapper ----------

  // A record as the reducer reads it: a key and a number, or a line that is not one.
  datatype Record = Pair(key: seq<int>, value: int) | Malformed

  function Strip(line: seq<int>): seq<int> {
    if line == [] || line[|line| - 1] != NEWLINE then line
    else if |line| > 1 && line[|line| - 2] == RETURN then line[..|line| - 2]
    else line[..|line| - 1]
  }

  // A newline at the end goes, and a return in front of it; nothing else does.
  lemma StripIs(line: seq<int>)
    ensures (line == [] || line[|line| - 1] != NEWLINE) ==> Strip(line) == line
    ensures forall text :: line == text + [NEWLINE] && (text == [] || text[|text| - 1] != RETURN) ==>
      Strip(line) == text
    ensures forall text :: line == text + [RETURN, NEWLINE] ==> Strip(line) == text
  {
    forall text | line == text + [RETURN, NEWLINE] ensures Strip(line) == text {
      assert line[|line| - 2] == RETURN && line[..|line| - 2] == text;
    }
  }

  function MapLines(lines: seq<seq<int>>, func: seq<int> -> seq<Record>): seq<Record> {
    if lines == [] then [] else func(Strip(lines[0])) + MapLines(lines[1..], func)
  }

  // The records of a single line are those of what is left of it.
  lemma MapSingle(line: seq<int>, func: seq<int> -> seq<Record>)
    ensures MapLines([line], func) == func(Strip(line))
  {
    assert [line][1..] == [];
    assert func(Strip(line)) + [] == func(Strip(line));
  }

  lemma {:induction false} MapLinesOfParts(a: seq<seq<int>>, b: seq<seq<int>>, func: seq<int> -> seq<Record>)
    ensures MapLines(a + b, func) == MapLines(a, func) + MapLines(b, func)
  {
    if a == [] {
      assert a + b == b;
    } else {
      assert (a + b)[1..] == a[1..] + b;
      MapLinesOfParts(a[1..], b, func);
    }
  }

  // run_mapper_on_fds
  method RunMapper(input: seq<int>, func: seq<int> -> seq<Record>) returns (output: seq<Record>)
    ensures output == Mapper(func)(input)
  {
    output := [];
    var rest := input;
    while rest != []
      invariant output + MapLines(Lines(rest), func) == MapLines(Lines(input), func)
      decreases |rest|
    {
      var n := NextLine(rest, 0);
      var line := rest[..n];
      if line[|line| - 1] == NEWLINE {
        line := line[..|line| - 1];
        if |line| > 0 && line[|line| - 1] == RETURN {
          line := line[..|line| - 1];
        }
      }
      assert line == Strip(rest[..n]);
      MapFirst(rest, n, func);
      output := output + func(line);
      rest := rest[n..];
    }
  }

  lemma MapFirst(data: seq<int>, n: nat, func: seq<int> -> seq<Record>)
    requires data != [] && n == LineEnd(data, 0)
    ensures MapLines(Lines(data), func) == func(Strip(data[..n])) + MapLines(Lines(data[n..]), func)
  {
    assert Lines(data)[0] == data[..n] && Lines(data)[1..] == Lines(data[n..]);
  }

  // What a mapper makes of a file.
  function Mapper(func: seq<int> -> seq<Record>): seq<int> -> seq<Record> {
    input => MapLines(Lines(input), func)
  }

  // The records of the pieces before piece i.
  function MappedPieces(data: seq<int>, cuts: seq<nat>, i: nat, mapper: seq<int> -> seq<Record>): seq<Record>
    requires i < |cuts|
  {
    if i == 0 then [] else MappedPieces(data, cuts, i - 1, mapper) + mapper(Piece(data, cuts, i - 1))
  }

  // A mapper for which it makes no difference that the file is cut.
  ghost predicate AddsUp(data: seq<int>, cuts: seq<nat>, mapper: seq<int> -> seq<Record>, i: nat)
    requires i + 1 < |cuts|
  {
    cuts[i] <= cuts[i + 1] <= |data| ==>
      mapper(data[..cuts[i + 1]]) == mapper(data[..cuts[i]]) + mapper(Piece(data, cuts, i))
  }

  lemma {:induction false} MappedPrefix(data: seq<int>, cuts: seq<nat>, i: nat, mapper: seq<int> -> seq<Record>)
    requires CutsAreFine(data, cuts) && i < |cuts| && mapper([]) == []
    requires forall j :: 0 <= j < |cuts| - 1 ==> AddsUp(data, cuts, mapper, j)
    ensures cuts[i] <= |data| && MappedPieces(data, cuts, i, mapper) == mapper(data[..cuts[i]])
  {
    if i == 0 {
      assert data[..0] == [];
    } else {
      MappedPrefix(data, cuts, i - 1, mapper);
      assert CutIs(data, cuts, i - 1) && AddsUp(data, cuts, mapper, i - 1);
    }
  }

  lemma MapperAddsUp(data: seq<int>, cuts: seq<nat>, func: seq<int> -> seq<Record>)
    requires CutsAreFine(data, cuts)
    ensures Mapper(func)([]) == []
    ensures forall j :: 0 <= j < |cuts| - 1 ==> AddsUp(data, cuts, Mapper(func), j)
  {
    forall j | 0 <= j < |cuts| - 1 ensures AddsUp(data, cuts, Mapper(func), j) {
      assert CutIs(data, cuts, j);
      MappedAcrossCut(data, cuts[j], cuts[j + 1], func);
    }
  }

  lemma MappedAcrossCut(data: seq<int>, p: nat, q: nat, func: seq<int> -> seq<Record>)
    requires p <= q <= |data| && (0 < p < |data| ==> data[p - 1] == NEWLINE)
    ensures Mapper(func)(data[..q]) == Mapper(func)(data[..p]) + Mapper(func)(data[p..q])
  {
    NextPart(data, p, q);
    LinesAcrossCut(data, data[..p], data[p..q]);
    MapLinesOfParts(Lines(data[..p]), Lines(data[p..q]), func);
  }

  lemma LinesAcrossCut(data: seq<int>, a: seq<int>, b: seq<int>)
    requires a + b <= data && (0 < |a| < |data| ==> data[|a| - 1] == NEWLINE)
    ensures Lines(a + b) == Lines(a) + Lines(b)
  {
    if |a| < |data| {
      LinesOfParts(a, b);
    } else {
      assert b == [] && a + b == a;
    }
  }

  // ---------- the reducer ----------

  // run_reducer_on with the function of reducers/sum.c.
  method RunReducer(input: seq<Record>) returns (datastore: map<seq<int>, int>)
    ensures datastore == Totals(input)
  {
    datastore := map[];
    for i := 0 to |input|
      invariant datastore == Totals(input[..i])
    {
      assert input[..i + 1][..i] == input[..i];
      match input[i] {
        case Malformed =>
        case Pair(key, value) =>
          if key in datastore {
            datastore := datastore[key := datastore[key] + value];
          } else {
            datastore := datastore[key := value];
          }
      }
    }
    assert input[..|input|] == input;
  }

  // The datastore after all records.
  function Totals(records: seq<Record>): map<seq<int>, int> {
    if records == [] then map[]
    else
      var before, last := Totals(records[..|records| - 1]), records[|records| - 1];
      match last
      case Malformed => before
      case Pair(key, value) => before[key := (if key in before then before[key] else 0) + value]
  }

  // The sum for one key, and whether there is a record for it.
  function Total(records: seq<Record>, key: seq<int>): int {
    if records == [] then 0
    else Total(records[1..], key) + if records[0].Pair? && records[0].key == key then records[0].value else 0
  }

  predicate Occurs(records: seq<Record>, key: seq<int>) {
    exists r :: r in records && r.Pair? && r.key == key
  }

  lemma {:induction false} TotalOfParts(a: seq<Record>, b: seq<Record>, key: seq<int>)
    ensures Total(a + b, key) == Total(a, key) + Total(b, key)
  {
    if a == [] {
      assert a + b == b;
    } else {
      assert (a + b)[1..] == a[1..] + b;
      TotalOfParts(a[1..], b, key);
    }
  }

  // The datastore holds the sum of the values of each key that occurs.
  lemma {:induction false} TotalsAreSums(records: seq<Record>, key: seq<int>)
    ensures key in Totals(records) <==> Occurs(records, key)
    ensures key in Totals(records) ==> Totals(records)[key] == Total(records, key)
    ensures key !in Totals(records) ==> Total(records, key) == 0
  {
    if records != [] {
      var front, last := records[..|records| - 1], records[|records| - 1];
      TotalsAreSums(front, key);
      assert records == front + [last];
      TotalOfParts(front, [last], key);
      assert [last][1..] == [];
      assert last in records;
      if Occurs(front, key) {
        var r :| r in front && r.Pair? && r.key == key;
        assert r in records;
      }
    }
  }

  // The sums do not depend on the order of the records.
  lemma TotalWithoutAt(records: seq<Record>, i: nat, key: seq<int>)
    requires i < |records|
    ensures Total(records, key) == Total(WithoutAt(records, i), key) + Total([records[i]], key)
  {
    assert records == records[..i] + ([records[i]] + records[i + 1..]);
    TotalOfParts(records[..i], [records[i]] + records[i + 1..], key);
    TotalOfParts([records[i]], records[i + 1..], key);
    TotalOfParts(records[..i], records[i + 1..], key);
  }

  lemma {:induction false} TotalOfPermutation(a: seq<Record>, b: seq<Record>, key: seq<int>)
    requires multiset(a) == multiset(b)
    ensures Total(a, key) == Total(b, key)
    decreases |a|
  {
    if a != [] {
      assert a[0] in multiset(b);
      var i :| 0 <= i < |b| && b[i] == a[0];
      RemoveAt(a, 0);
      RemoveAt(b, i);
      TotalOfPermutation(WithoutAt(a, 0), WithoutAt(b, i), key);
      TotalWithoutAt(a, 0, key);
      TotalWithoutAt(b, i, key);
    } else {
      assert |b| == |multiset(b)| == 0;
    }
  }

  lemma TotalsOfPermutation(a: seq<Record>, b: seq<Record>)
    requires multiset(a) == multiset(b)
    ensures Totals(a) == Totals(b)
  {
    forall key ensures key in Totals(a) <==> key in Totals(b)
      ensures key in Totals(a) ==> Totals(a)[key] == Totals(b)[key]
    {
      TotalsAreSums(a, key);
      TotalsAreSums(b, key);
      TotalOfPermutation(a, b, key);
      assert forall r :: r in a <==> r in multiset(b);
    }
  }

  // For every file, every number of chunks and every order in which the records arrive, the result is that
  // of one mapper on the whole file.
  lemma SplittingDoesNotMatter(data: seq<int>, count: nat, func: seq<int> -> seq<Record>, arrived: seq<Record>)
    requires count > 0
    requires multiset(arrived) == multiset(MappedPieces(data, Cuts(data, count), count, Mapper(func)))
    ensures Totals(arrived) == Totals(Mapper(func)(data))
  {
    var cuts := Cuts(data, count);
    CutsFine(data, count);
    MapperAddsUp(data, cuts, func);
    MappedPrefix(data, cuts, count, Mapper(func));
    assert data[..cuts[count]] == data;
    TotalsOfPermutation(arrived, MappedPieces(data, cuts, count, Mapper(func)));
  }
}
