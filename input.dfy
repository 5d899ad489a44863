/**
 * Reading points from a text stream (`read_vectors`) and checking the
 * cluster-count argument (`natural_number`).
 *
 * Python's `float()` and `int()` are library parsers; they are parameters
 * here (`parse`, `parseInt`) that either produce a value or reject the text.
 */
module Input {
  import opened Wrappers

  // ---------------------------------------------------------------------------
  // str.strip()

  /** Python's `str.isspace` for one character (Unicode whitespace and the ASCII separators). */
  predicate IsSpace(c: char) {
    ('\t' <= c <= '\r') || ('\U{1C}' <= c <= ' ') || c == '\U{85}' || c == '\U{A0}' ||
    c == '\U{1680}' || ('\U{2000}' <= c <= '\U{200A}') || c == '\U{2028}' || c == '\U{2029}' ||
    c == '\U{202F}' || c == '\U{205F}' || c == '\U{3000}'
  }

  /** `str.lstrip()`: drop leading whitespace. */
  function TrimStart(s: string): (r: string)
    ensures |r| <= |s|
  {
    if |s| >= 1 && IsSpace(s[0]) then TrimStart(s[1..]) else s
  }

  /**
   * TrimStart keeps the suffix that starts at the first non-space: all it
   * drops is whitespace, and what it keeps does not start with whitespace.
   */
  lemma {:induction false} TrimStartSpec(s: string)
    ensures |TrimStart(s)| <= |s| && TrimStart(s) == s[|s| - |TrimStart(s)|..]
    ensures forall i :: 0 <= i < |s| - |TrimStart(s)| ==> IsSpace(s[i])
    ensures |TrimStart(s)| >= 1 ==> !IsSpace(TrimStart(s)[0])
  {
    if |s| >= 1 && IsSpace(s[0]) {
      TrimStartSpec(s[1..]);
      assert forall i :: 1 <= i < |s| ==> s[i] == s[1..][i - 1];
    }
  }

  /** `str.rstrip()`: drop trailing whitespace. */
  function TrimEnd(s: string): (r: string)
    ensures |r| <= |s|
  {
    if |s| >= 1 && IsSpace(s[|s| - 1]) then TrimEnd(s[..|s| - 1]) else s
  }

  /**
   * TrimEnd keeps the prefix that ends at the last non-space: all it drops is
   * whitespace, and what it keeps does not end with whitespace.
   */
  lemma {:induction false} TrimEndSpec(s: string)
    ensures |TrimEnd(s)| <= |s| && TrimEnd(s) == s[..|TrimEnd(s)|]
    ensures forall i :: |TrimEnd(s)| <= i < |s| ==> IsSpace(s[i])
    ensures |TrimEnd(s)| >= 1 ==> !IsSpace(TrimEnd(s)[|TrimEnd(s)| - 1])
  {
    if |s| >= 1 && IsSpace(s[|s| - 1]) {
      TrimEndSpec(s[..|s| - 1]);
    }
  }

  /** `str.strip()` with no argument. */
  function Strip(s: string): (r: string)
    ensures |r| <= |s|
  {
    TrimEnd(TrimStart(s))
  }

  /**
   * A stripped line neither starts nor ends with whitespace, and it is empty
   * exactly when the line is all whitespace.
   */
  lemma StripSpec(s: string)
    ensures |Strip(s)| <= |s|
    ensures |Strip(s)| >= 1 ==> !IsSpace(Strip(s)[0]) && !IsSpace(Strip(s)[|Strip(s)| - 1])
    ensures Strip(s) == [] <==> forall i :: 0 <= i < |s| ==> IsSpace(s[i])
  {
    var t := TrimStart(s);
    TrimStartSpec(s);
    TrimEndSpec(t);
    if Strip(s) != [] {
      var c := Strip(s)[0];
      assert c == t[0];
      assert s[|s| - |t|] == c;
    }
  }

  // ---------------------------------------------------------------------------
  // str.split(sep)

  /** The fields joined back together with `sep` between them. */
  function Join(fields: seq<string>, sep: string): string
    requires |fields| >= 1
  {
    if |fields| == 1 then fields[0] else fields[0] + sep + Join(fields[1..], sep)
  }

  /** `sep` occurs in `t` at position `i`. */
  predicate OccursAt(t: string, sep: string, i: nat) {
    i + |sep| <= |t| && t[i..i + |sep|] == sep
  }

  /** `sep` does not occur anywhere in `t`. */
  ghost predicate Free(t: string, sep: string) {
    forall i: nat :: !OccursAt(t, sep, i)
  }

  /**
   * `str.split(sep)` for a non-empty separator: cut at the leftmost
   * non-overlapping occurrences of `sep`, keeping empty fields.
   */
  function Split(s: string, sep: string): (r: seq<string>)
    requires |sep| >= 1
    ensures 1 <= |r| <= |s| + 1
    decreases |s|
  {
    if |s| < |sep| then [s]
    else if s[..|sep|] == sep then [""] + Split(s[|sep|..], sep)
    else
      var rest := Split(s[1..], sep);
      [[s[0]] + rest[0]] + rest[1..]
  }

  /** The first field is the text up to the first separator: a prefix of the text. */
  lemma {:induction false} SplitFirstIsPrefix(s: string, sep: string)
    requires |sep| >= 1
    ensures |Split(s, sep)[0]| <= |s| && Split(s, sep)[0] == s[..|Split(s, sep)[0]|]
    decreases |s|
  {
    if |s| >= |sep| && s[..|sep|] != sep {
      SplitFirstIsPrefix(s[1..], sep);
    }
  }
  /**
   * The first cut is at the leftmost occurrence of the separator: none starts
   * inside the first field, and one starts right after it when there is a
   * second field.
   */
  lemma {:induction false} SplitFirstIsLeftmost(s: string, sep: string)
    requires |sep| >= 1
    ensures forall i: nat :: i < |Split(s, sep)[0]| ==> !OccursAt(s, sep, i)
    ensures |Split(s, sep)| >= 2 ==> OccursAt(s, sep, |Split(s, sep)[0]|)
    decreases |s|
  {
    if |s| >= |sep| && s[..|sep|] != sep {
      var rest := Split(s[1..], sep);
      SplitFirstIsLeftmost(s[1..], sep);
      assert Split(s, sep) == [[s[0]] + rest[0]] + rest[1..];
      forall i: nat | i < |Split(s, sep)[0]|
        ensures !OccursAt(s, sep, i)
      {
        if i == 0 {
          assert s[0..|sep|] == s[..|sep|];
        } else if i + |sep| <= |s| {
          var t := s[1..];
          assert t[i - 1..i - 1 + |sep|] == s[i..i + |sep|];
          assert !OccursAt(t, sep, i - 1);
        }
      }
      if |rest| >= 2 {
        var j := |rest[0]|;
        var t := s[1..];
        assert OccursAt(t, sep, j);
        assert t[j..j + |sep|] == s[j + 1..j + 1 + |sep|];
      }
    }
  }


  /**
   * After the first cut, the remaining fields are the split of the text that
   * follows the first separator, so the leftmost cut, applied again, fixes
   * every field.
   */
  lemma {:induction false} SplitRest(s: string, sep: string)
    requires |sep| >= 1
    ensures |Split(s, sep)| >= 2 ==>
      |Split(s, sep)[0]| + |sep| <= |s| &&
      Split(s, sep)[1..] == Split(s[|Split(s, sep)[0]| + |sep|..], sep)
    decreases |s|
  {
    if |s| >= |sep| && s[..|sep|] != sep {
      var rest := Split(s[1..], sep);
      SplitRest(s[1..], sep);
      assert Split(s, sep) == [[s[0]] + rest[0]] + rest[1..];
      if |rest| >= 2 {
        var j := |rest[0]| + |sep|;
        assert s[1..][j..] == s[j + 1..];
      }
    }
  }

  /** Putting a character in front of the first field puts it in front of the joined text. */
  lemma JoinConsFirst(c: char, fields: seq<string>, sep: string)
    requires |fields| >= 1
    ensures Join([[c] + fields[0]] + fields[1..], sep) == [c] + Join(fields, sep)
  {
    var g := [[c] + fields[0]] + fields[1..];
    if |fields| >= 2 {
      assert g[1..] == fields[1..];
    }
  }

  /** An empty first field contributes only the separator after it. */
  lemma JoinEmptyFirst(fields: seq<string>, sep: string)
    requires |fields| >= 1
    ensures Join([""] + fields, sep) == sep + Join(fields, sep)
  {
    assert ([""] + fields)[1..] == fields;
  }

  /** Splitting loses nothing: joining the fields with `sep` gives the text back. */
  lemma {:induction false} SplitJoin(s: string, sep: string)
    requires |sep| >= 1
    ensures Join(Split(s, sep), sep) == s
    decreases |s|
  {
    if |s| < |sep| {
    } else if s[..|sep|] == sep {
      SplitJoin(s[|sep|..], sep);
      JoinEmptyFirst(Split(s[|sep|..], sep), sep);
      assert s == sep + s[|sep|..];
    } else {
      SplitJoin(s[1..], sep);
      JoinConsFirst(s[0], Split(s[1..], sep), sep);
      assert s == [s[0]] + s[1..];
    }
  }

  /** Splitting cuts at every occurrence: no field contains the separator. */
  lemma {:induction false} SplitFieldsFree(s: string, sep: string)
    requires |sep| >= 1
    ensures forall j :: 0 <= j < |Split(s, sep)| ==> Free(Split(s, sep)[j], sep)
    decreases |s|
  {
    var r := Split(s, sep);
    if |s| < |sep| {
      forall i: nat
        ensures !OccursAt(s, sep, i)
      {
      }
    } else if s[..|sep|] == sep {
      SplitFieldsFree(s[|sep|..], sep);
      assert r == [""] + Split(s[|sep|..], sep);
      forall j | 0 <= j < |r|
        ensures Free(r[j], sep)
      {
        if j >= 1 {
          assert r[j] == Split(s[|sep|..], sep)[j - 1];
        }
      }
    } else {
      var rest := Split(s[1..], sep);
      SplitFieldsFree(s[1..], sep);
      SplitFirstIsPrefix(s, sep);
      var first := [s[0]] + rest[0];
      assert first == s[..|first|];
      forall i: nat | i + |sep| <= |first|
        ensures !OccursAt(first, sep, i)
      {
        if i == 0 {
          assert first[..|sep|] == s[..|sep|];
        } else {
          assert first[i..i + |sep|] == rest[0][i - 1..i - 1 + |sep|];
          assert !OccursAt(rest[0], sep, i - 1);
        }
      }
      forall j | 0 <= j < |r|
        ensures Free(r[j], sep)
      {
        if j >= 1 {
          assert r[j] == rest[j];
        }
      }
    }
  }

  // ---------------------------------------------------------------------------
  // The fields of one line

  /** The comprehension's `if entry`: keep the non-empty fields, in order. */
  function NonEmpty(fields: seq<string>): (r: seq<string>)
    ensures |r| <= |fields|
  {
    if |fields| == 0 then []
    else if fields[0] == [] then NonEmpty(fields[1..])
    else [fields[0]] + NonEmpty(fields[1..])
  }

  /** NonEmpty keeps exactly the non-empty fields. */
  lemma {:induction false} NonEmptyKeeps(fields: seq<string>)
    ensures forall f :: f in NonEmpty(fields) <==> f in fields && f != []
  {
    if |fields| >= 1 {
      NonEmptyKeeps(fields[1..]);
      assert fields == [fields[0]] + fields[1..];
    }
  }

  /**
   * NonEmpty is a filter: it distributes over concatenation, and keeps a single
   * field exactly when that field is non-empty, so it keeps every non-empty
   * field, with its repetitions, in its original order.
   */
  lemma {:induction false} NonEmptyAppend(a: seq<string>, b: seq<string>)
    ensures NonEmpty(a + b) == NonEmpty(a) + NonEmpty(b)
    ensures |a| == 1 ==> NonEmpty(a) == (if a[0] == [] then [] else a)
    decreases |a|
  {
    if |a| == 0 {
      assert a + b == b;
    } else {
      var ab := a + b;
      assert ab[0] == a[0] && ab[1..] == a[1..] + b;
      NonEmptyAppend(a[1..], b);
      if a[0] == [] {
        assert NonEmpty(ab) == NonEmpty(a[1..] + b);
      } else {
        assert NonEmpty(ab) == [a[0]] + NonEmpty(a[1..] + b);
      }
      if |a| == 1 {
        assert NonEmpty(a[1..]) == [];
      }
    }
  }

  /** The entries `read_vectors` converts for one line: non-empty fields of the stripped line. */
  function Fields(line: string, sep: string): (r: seq<string>)
    requires |sep| >= 1
    ensures |r| <= |line| + 1
  {
    NonEmpty(Split(Strip(line), sep))
  }

  /** Every entry of a line is non-empty and holds no separator. */
  lemma FieldsAreEntries(line: string, sep: string)
    requires |sep| >= 1
    ensures forall f :: f in Fields(line, sep) ==> f != [] && Free(f, sep)
  {
    SplitFieldsFree(Strip(line), sep);
    NonEmptyKeeps(Split(Strip(line), sep));
  }

  /** A whitespace-only line has no fields, whatever the separator. */
  lemma BlankLineHasNoFields(line: string, sep: string)
    requires |sep| >= 1
    requires forall i :: 0 <= i < |line| ==> IsSpace(line[i])
    ensures Fields(line, sep) == []
  {
    StripSpec(line);
    assert Split(Strip(line), sep) == [""];
  }

  /**
   * With a whitespace separator (the default is a single space), a line has
   * fields exactly when it holds a non-space character.
   */
  lemma FieldsIffNotBlank(line: string, sep: string)
    requires |sep| >= 1 && forall i :: 0 <= i < |sep| ==> IsSpace(sep[i])
    ensures Fields(line, sep) == [] <==> forall i :: 0 <= i < |line| ==> IsSpace(line[i])
  {
    StripSpec(line);
    var s := Strip(line);
    if |s| >= 1 {
      var parts := Split(s, sep);
      assert |s| < |sep| || s[..|sep|] != sep by {
        if |s| >= |sep| {
          assert s[..|sep|][0] == s[0];
        }
      }
      NonEmptyKeeps(parts);
      assert parts[0] != [] && parts[0] in parts;
    } else {
      BlankLineHasNoFields(line, sep);
    }
  }

  // ---------------------------------------------------------------------------
  // Converting the fields

  /**
   * `[vector_type(entry) for entry in fields]`: every field converted in
   * order, or the index of the first field the parser rejects.
   */
  function Convert(fields: seq<string>, parse: string -> Option<real>): (r: Result<seq<real>, nat>)
    ensures r.Failure? ==> r.error < |fields|
  {
    if |fields| == 0 then Success([])
    else match parse(fields[0])
      case None => Failure(0)
      case Some(x) =>
        match Convert(fields[1..], parse)
        case Success(xs) => Success([x] + xs)
        case Failure(j) => Failure(j + 1)
  }

  /**
   * A successful conversion holds the parsed value of each field, in order; a
   * failure names the first field the parser rejects.
   */
  lemma {:induction false} ConvertSpec(fields: seq<string>, parse: string -> Option<real>)
    ensures var r := Convert(fields, parse);
      (r.Success? ==>
        |r.value| == |fields| && forall i :: 0 <= i < |fields| ==> parse(fields[i]) == Some(r.value[i])) &&
      (r.Failure? ==>
        parse(fields[r.error]).None? && forall i :: 0 <= i < r.error ==> parse(fields[i]).Some?)
  {
    if |fields| >= 1 && parse(fields[0]).Some? {
      ConvertSpec(fields[1..], parse);
    }
  }

  /** The conversion fails only when some field is rejected. */
  lemma ConvertSucceedsIffAllParse(fields: seq<string>, parse: string -> Option<real>)
    ensures Convert(fields, parse).Success? <==> forall i :: 0 <= i < |fields| ==> parse(fields[i]).Some?
  {
    ConvertSpec(fields, parse);
    var r := Convert(fields, parse);
    if r.Failure? {
      assert parse(fields[r.error]).None?;
    }
  }

  // ---------------------------------------------------------------------------
  // read_vectors

  /** Why reading stopped: `split("")` raises, or `vector_type` rejected a field. */
  datatype ReadError = EmptySeparator | InvalidField(field: string)

  /** What one line contributes: a vector, nothing, or the exception that ends the generator. */
  datatype LineOutcome = Yield(vector: seq<real>) | Skip | Raise(error: ReadError)

  /** The vectors yielded, and the exception raised after them, if any. */
  datatype Read = Read(vectors: seq<seq<real>>, error: Option<ReadError>)

  /** One pass of the generator's loop body. */
  function ReadLine(line: string, sep: string, includeEmpty: bool, parse: string -> Option<real>): (o: LineOutcome)
    ensures o == Raise(EmptySeparator) <==> |sep| == 0
  {
    if |sep| == 0 then Raise(EmptySeparator)
    else
      var fields := Fields(line, sep);
      match Convert(fields, parse)
      case Failure(j) => Raise(InvalidField(fields[j]))
      case Success(v) => if |v| == 0 && !includeEmpty then Skip else Yield(v)
  }

  /**
   * A line raises for an empty separator or a rejected field, is skipped when
   * it has no fields and empty lines are not wanted, and otherwise yields its
   * converted fields.
   */
  lemma ReadLineOutcome(line: string, sep: string, includeEmpty: bool, parse: string -> Option<real>)
    ensures var o := ReadLine(line, sep, includeEmpty, parse);
      (|sep| == 0 ==> o == Raise(EmptySeparator)) &&
      (|sep| >= 1 && Convert(Fields(line, sep), parse).Failure? ==>
        o == Raise(InvalidField(Fields(line, sep)[Convert(Fields(line, sep), parse).error]))) &&
      (o.Yield? ==> |sep| >= 1 && Convert(Fields(line, sep), parse) == Success(o.vector)) &&
      (o.Yield? && !includeEmpty ==> |o.vector| >= 1) &&
      (o.Skip? <==> |sep| >= 1 && !includeEmpty && Fields(line, sep) == [])
  {
  }

  /** Everything the generator produces over `lines`. */
  function ReadAll(lines: seq<string>, sep: string, includeEmpty: bool, parse: string -> Option<real>): (r: Read)
    ensures |r.vectors| <= |lines|
  {
    if |lines| == 0 then Read([], None)
    else ReadAllStep(ReadLine(lines[0], sep, includeEmpty, parse), ReadAll(lines[1..], sep, includeEmpty, parse))
  }

  /** One line's outcome followed by what the remaining lines produce. */
  function ReadAllStep(outcome: LineOutcome, rest: Read): (r: Read)
    ensures |r.vectors| <= |rest.vectors| + 1
  {
    match outcome
    case Raise(e) => Read([], Some(e))
    case Skip => rest
    case Yield(v) => Read([v] + rest.vectors, rest.error)
  }

  /** The vectors yielded before `r` is produced. */
  function Prepend(vectors: seq<seq<real>>, r: Read): Read {
    Read(vectors + r.vectors, r.error)
  }

  /**
   * Reading line `i` after `vectors` were yielded: an exception ends the
   * stream, otherwise the line's vector (if any) is yielded and reading goes on.
   */
  lemma ReadAllAdvance(lines: seq<string>, i: nat, vectors: seq<seq<real>>, sep: string, includeEmpty: bool,
                       parse: string -> Option<real>)
    requires i < |lines|
    ensures var o := ReadLine(lines[i], sep, includeEmpty, parse);
      Prepend(vectors, ReadAll(lines[i..], sep, includeEmpty, parse)) ==
        if o.Raise? then Read(vectors, Some(o.error))
        else Prepend(vectors + (if o.Yield? then [o.vector] else []), ReadAll(lines[i + 1..], sep, includeEmpty, parse))
  {
    assert lines[i..][1..] == lines[i + 1..];
    var o := ReadLine(lines[i], sep, includeEmpty, parse);
    var rest := ReadAll(lines[i + 1..], sep, includeEmpty, parse);
    if o.Yield? {
      assert vectors + ([o.vector] + rest.vectors) == (vectors + [o.vector]) + rest.vectors;
    } else if o.Skip? {
      assert vectors + [] == vectors;
    }
  }

  /**
   * `read_vectors` over the lines of a stream: one outcome per line, in
   * order, stopping at the first exception.
   */
  method ReadVectors(lines: seq<string>, sep: string, includeEmpty: bool, parse: string -> Option<real>)
    returns (r: Read)
    ensures r == ReadAll(lines, sep, includeEmpty, parse)
  {
    var vectors: seq<seq<real>> := [];
    var i := 0;
    while i < |lines|
      invariant 0 <= i <= |lines|
      invariant ReadAll(lines, sep, includeEmpty, parse) == Prepend(vectors, ReadAll(lines[i..], sep, includeEmpty, parse))
    {
      var outcome := ReadLine(lines[i], sep, includeEmpty, parse);
      ReadAllAdvance(lines, i, vectors, sep, includeEmpty, parse);
      if outcome.Raise? {
        return Read(vectors, Some(outcome.error));
      }
      if outcome.Yield? {
        vectors := vectors + [outcome.vector];
      }
      i := i + 1;
    }
    assert lines[i..] == [];
    r := Read(vectors, None);
  }

  /** The lines that yield a vector: those with fields, or every line when empty lines are included. */
  function Kept(lines: seq<string>, sep: string, includeEmpty: bool): (r: seq<string>)
    requires |sep| >= 1
    ensures |r| <= |lines|
    ensures includeEmpty ==> r == lines
  {
    if |lines| == 0 then []
    else if !includeEmpty && Fields(lines[0], sep) == [] then Kept(lines[1..], sep, includeEmpty)
    else [lines[0]] + Kept(lines[1..], sep, includeEmpty)
  }

  /** Each vector is the conversion of the fields of the line at the same position. */
  ghost predicate FromLines(vectors: seq<seq<real>>, kept: seq<string>, sep: string, parse: string -> Option<real>)
    requires |sep| >= 1
  {
    |vectors| == |kept| &&
    (|kept| >= 1 ==>
      Convert(Fields(kept[0], sep), parse) == Success(vectors[0]) && FromLines(vectors[1..], kept[1..], sep, parse))
  }

  /** The correspondence at one position. */
  lemma {:induction false} FromLinesAt(vectors: seq<seq<real>>, kept: seq<string>, sep: string,
                                       parse: string -> Option<real>, j: nat)
    requires |sep| >= 1 && FromLines(vectors, kept, sep, parse) && j < |kept|
    ensures Convert(Fields(kept[j], sep), parse) == Success(vectors[j])
  {
    if j >= 1 {
      FromLinesAt(vectors[1..], kept[1..], sep, parse, j - 1);
    }
  }

  /**
   * When nothing is raised, the j-th vector comes from the j-th kept line and
   * holds one converted entry per non-empty field of that line.
   */
  lemma {:induction false} ReadAllVectors(lines: seq<string>, sep: string, includeEmpty: bool, parse: string -> Option<real>)
    requires |sep| >= 1
    requires ReadAll(lines, sep, includeEmpty, parse).error.None?
    ensures FromLines(ReadAll(lines, sep, includeEmpty, parse).vectors, Kept(lines, sep, includeEmpty), sep, parse)
  {
    if |lines| >= 1 {
      ReadAllVectors(lines[1..], sep, includeEmpty, parse);
      ReadLineOutcome(lines[0], sep, includeEmpty, parse);
      var o := ReadLine(lines[0], sep, includeEmpty, parse);
      if o.Yield? {
        var vs := ReadAll(lines[1..], sep, includeEmpty, parse).vectors;
        var ks := Kept(lines[1..], sep, includeEmpty);
        assert ([o.vector] + vs)[1..] == vs && ([lines[0]] + ks)[1..] == ks;
      }
    }
  }

  /**
   * The j-th vector read holds one entry per non-empty field of the j-th kept
   * line: the parsed value of that field.
   */
  lemma VectorOfLine(lines: seq<string>, sep: string, includeEmpty: bool, parse: string -> Option<real>, j: nat)
    requires |sep| >= 1
    requires ReadAll(lines, sep, includeEmpty, parse).error.None?
    requires j < |ReadAll(lines, sep, includeEmpty, parse).vectors|
    ensures j < |Kept(lines, sep, includeEmpty)|
    ensures var v := ReadAll(lines, sep, includeEmpty, parse).vectors[j];
      var fields := Fields(Kept(lines, sep, includeEmpty)[j], sep);
      |v| == |fields| && forall i :: 0 <= i < |fields| ==> parse(fields[i]) == Some(v[i])
  {
    var vectors := ReadAll(lines, sep, includeEmpty, parse).vectors;
    var kept := Kept(lines, sep, includeEmpty);
    ReadAllVectors(lines, sep, includeEmpty, parse);
    FromLinesAt(vectors, kept, sep, parse, j);
    ConvertSpec(Fields(kept[j], sep), parse);
  }

  /** With `include_empty`, a stream read to the end gives one vector per line. */
  lemma IncludeEmptyKeepsEveryLine(lines: seq<string>, sep: string, parse: string -> Option<real>)
    requires |sep| >= 1
    requires ReadAll(lines, sep, true, parse).error.None?
    ensures |ReadAll(lines, sep, true, parse).vectors| == |lines|
  {
    ReadAllVectors(lines, sep, true, parse);
  }

  /** Without `include_empty`, no yielded vector is empty. */
  lemma {:induction false} SkipEmptyYieldsNoEmpty(lines: seq<string>, sep: string, parse: string -> Option<real>)
    ensures forall v :: v in ReadAll(lines, sep, false, parse).vectors ==> |v| >= 1
  {
    if |lines| >= 1 {
      SkipEmptyYieldsNoEmpty(lines[1..], sep, parse);
    }
  }

  /** An empty separator raises on the first line; no lines means no vectors and no error. */
  lemma ReadAllEdges(lines: seq<string>, sep: string, includeEmpty: bool, parse: string -> Option<real>)
    ensures |lines| == 0 ==> ReadAll(lines, sep, includeEmpty, parse) == Read([], None)
    ensures |lines| >= 1 && |sep| == 0 ==> ReadAll(lines, sep, includeEmpty, parse) == Read([], Some(EmptySeparator))
  {
  }

  // ---------------------------------------------------------------------------
  // natural_number

  /** How the cluster-count argument is rejected. */
  datatype ArgError =
    | InvalidInt(text: string)      // `int(s)` raised
    | NotNatural(n: int)            // the intended rejection of n < 1
    | UnknownFormatCode(code: char) // building the message raised instead

  /**
   * `natural_number` as written: for n < 1 the message is built with
   * `"{:r}".format(n)`, and `r` is not a format code for integers, so the
   * formatting raises before the intended rejection is reached.
   */
  function NaturalNumberAsWritten(s: string, parseInt: string -> Option<int>): (r: Result<int, ArgError>)
    ensures parseInt(s).None? ==> r == Failure(InvalidInt(s))
    ensures parseInt(s).Some? && parseInt(s).value < 1 ==> r == Failure(UnknownFormatCode('r'))
    ensures parseInt(s).Some? && parseInt(s).value >= 1 ==> r == Success(parseInt(s).value)
  {
    match parseInt(s)
    case None => Failure(InvalidInt(s))
    case Some(n) => if n < 1 then Failure(UnknownFormatCode('r')) else Success(n)
  }

  /** `natural_number` as intended: accept exactly the integers >= 1, unchanged. */
  function NaturalNumber(s: string, parseInt: string -> Option<int>): (r: Result<int, ArgError>)
    ensures r.Success? <==> parseInt(s).Some? && parseInt(s).value >= 1
    ensures r.Success? ==> r.value == parseInt(s).value && r.value >= 1
    ensures parseInt(s).Some? && parseInt(s).value < 1 ==> r == Failure(NotNatural(parseInt(s).value))
    ensures parseInt(s).None? ==> r == Failure(InvalidInt(s))
  {
    match parseInt(s)
    case None => Failure(InvalidInt(s))
    case Some(n) => if n < 1 then Failure(NotNatural(n)) else Success(n)
  }

  /**
   * The two versions accept the same inputs with the same values; they differ
   * only in the exception raised for an integer below 1 (for "0", say).
   */
  lemma FormatCodeDiscrepancy(s: string, parseInt: string -> Option<int>)
    ensures NaturalNumberAsWritten(s, parseInt).Success? <==> NaturalNumber(s, parseInt).Success?
    ensures NaturalNumber(s, parseInt).Success? ==>
      NaturalNumberAsWritten(s, parseInt).value == NaturalNumber(s, parseInt).value
    ensures parseInt(s) == Some(0) ==>
      NaturalNumberAsWritten(s, parseInt) == Failure(UnknownFormatCode('r')) &&
      NaturalNumber(s, parseInt) == Failure(NotNatural(0))
  {
  }
}
