/**
 * MaskResponseHandler: the traversal engine that redacts a response body in
 * place.  The configured field specification is a comma-separated list of
 * entries `path ["::" regex]*`; a path is split on the literal "(List)." into
 * segments, one per level of the object graph.  For each entry the engine
 * calls MaskField once (no regex) or once per regex clause.
 *
 * The regex engine is an oracle (`Finder`): given a pattern and the original
 * string it either rejects the pattern or yields, match by match, what
 * `group(1)` returns.  Exceptions the Java code lets escape are modelled as
 * `Raised` outcomes; the updates made before one was raised stay in place.
 */
module MaskResponseHandler {
  import opened Wrappers
  import opened JavaStrings
  import opened MaskUtil
  import opened Beans

  /** LIST_SIGN, the regex `\(List\)\.`, which matches the literal text below. */
  const ListSign: string := "(List)."
  /** REG_SIGN. */
  const RegSign: string := "::"
  /** The separator between the entries of one configuration value. */
  const EntrySign: string := ","

  /** The exceptions that escape from the engine. */
  datatype JavaException =
    | PatternSyntaxException          // Pattern.compile on a malformed regex
    | NullPointerException            // trim() on a null group(1); getClass() on a null body
    | IndexOutOfBoundsException       // group(1) on a pattern without a capturing group
    | ArrayIndexOutOfBoundsException  // formats[0] when an entry splits into nothing

  datatype Outcome = Normal | Raised(error: JavaException)

  datatype Result<T> = Ok(value: T) | Err(error: JavaException)

  /** What `m.group(1)` gives for one match. */
  datatype Group = Text(text: string) | NullGroup | NoGroup

  /** What compiling a pattern and running `find` over a string gives. */
  datatype Matches = BadPattern | Found(groups: seq<Group>)

  /** The regex engine: (pattern, input) to its matches. */
  type Finder = (string, string) -> Matches

  /** One call `maskField(body, path, regex)` planned from a specification entry. */
  datatype Call = Call(path: seq<string>, regex: Option<string>)

  /** The outcome of a run and the object graph it leaves behind. */
  datatype Step = Step(outcome: Outcome, store: Store)

  // ---------------------------------------------------------------------
  // What the engine may do to the graph: mask characters of strings.
  // ---------------------------------------------------------------------

  predicate ValueMaskedFrom(a: Value, b: Value) {
    a == b || (a.Str? && b.Str? && MaskedFrom(a.s, b.s))
  }

  predicate RecordMaskedFrom(a: Record, b: Record) {
    a.readOnly == b.readOnly && a.props.Keys == b.props.Keys &&
    forall k :: k in a.props ==> ValueMaskedFrom(a.props[k], b.props[k])
  }

  /**
   * `t` is `s` with some characters of some string properties masked: no
   * record or property is added or removed, every non-string value is the
   * same, and every string keeps its length.
   */
  predicate StoreMaskedFrom(s: Store, t: Store) {
    s.Keys == t.Keys && forall r :: r in s ==> RecordMaskedFrom(s[r], t[r])
  }

  lemma StoreMaskedFromTransitive(s: Store, t: Store, u: Store)
    requires StoreMaskedFrom(s, t) && StoreMaskedFrom(t, u)
    ensures StoreMaskedFrom(s, u)
  {
    forall r | r in s
      ensures RecordMaskedFrom(s[r], u[r])
    {
      forall k | k in s[r].props
        ensures ValueMaskedFrom(s[r].props[k], u[r].props[k])
      {
        var a, b, c := s[r].props[k], t[r].props[k], u[r].props[k];
        if a.Str? && b.Str? && c.Str? {
          if a != b && b != c {
            MaskedFromTransitive(a.s, b.s, c.s);
          }
        }
      }
    }
  }

  /** Writing a masked version of a string property back masks the graph. */
  lemma WrittenMasks(store: Store, node: Value, name: string, v: string, m: string)
    requires Read(store, node, name) == Some(Str(v))
    requires MaskedFrom(v, m)
    ensures StoreMaskedFrom(store, Written(store, node, name, Str(m)))
  {
    var t := Written(store, node, name, Str(m));
    if Writable(store, node, name) {
      var cs := Components(name);
      var key := cs[|cs| - 1];
      var r := Owner(store, node, name).value.ref;
      assert store[r].props[key] == Str(v);
      forall q | q in store
        ensures RecordMaskedFrom(store[q], t[q])
      {
        if q == r {
          forall k | k in store[q].props
            ensures ValueMaskedFrom(store[q].props[k], t[q].props[k])
          {
          }
        }
      }
    }
  }

  // ---------------------------------------------------------------------
  // The capture-span splice (lines 106-118).
  // ---------------------------------------------------------------------

  /**
   * One splice: the first occurrence of `text` in the current string is
   * replaced by its mask; the prefix before it and the suffix after it are
   * kept.  When `text` does not occur the string is unchanged.
   */
  function Splice(masked: string, text: string): (r: string)
    ensures MaskedFrom(masked, r)
  {
    var position := IndexOf(masked, text);
    if position == -1 then masked
    else
      SpliceAtMasks(masked, text, position);
      masked[..position] + MaskString(text) + masked[position + |text|..]
  }

  /**
   * What one splice does: when `text` does not occur the string is
   * unchanged; otherwise, at its first occurrence, the prefix before it and
   * the suffix after it are kept and the span becomes `MaskString(text)`.
   */
  lemma SpliceShape(masked: string, text: string)
    ensures var r := Splice(masked, text);
      && (!Contains(masked, text) ==> r == masked)
      && (Contains(masked, text) ==>
            var p := IndexOf(masked, text);
            && |r| == |masked|
            && r[..p] == masked[..p] && r[p..p + |text|] == MaskString(text)
            && r[p + |text|..] == masked[p + |text|..])
  {
    var p := IndexOf(masked, text);
    if p != -1 {
      SpliceAtMasks(masked, text, p);
    }
  }

  /** Replacing an occurrence of `text` by its mask masks exactly that span. */
  lemma SpliceAtMasks(masked: string, text: string, p: int)
    requires OccursAt(masked, text, p)
    ensures var r := masked[..p] + MaskString(text) + masked[p + |text|..];
      MaskedFrom(masked, r) && r[..p] == masked[..p] &&
      r[p..p + |text|] == MaskString(text) && r[p + |text|..] == masked[p + |text|..]
  {
    var a, m, c := masked[..p], MaskString(text), masked[p + |text|..];
    var r := a + m + c;
    assert |r| == |masked|;
    assert r[..p] == a;
    assert r[p..p + |text|] == m;
    assert r[p + |text|..] == c;
    forall i | 0 <= i < |masked|
      ensures r[i] == masked[i] || r[i] == MaskChar(masked[i])
    {
      if i < p {
        assert r[i] == a[i];
      } else if i < p + |text| {
        assert r[i] == m[i - p];
        assert masked[p..p + |text|][i - p] == masked[i];
      } else {
        assert r[i] == c[i - p - |text|];
      }
    }
  }


  /** One pass of the loop for a match whose group(1) is `text`: blank texts are skipped. */
  function SpliceStep(masked: string, text: string): (r: string)
    ensures MaskedFrom(masked, r)
  {
    if IsBlank(Some(Trim(text))) then masked else Splice(masked, text)
  }

  /** Unfolds the splice loop by one text match. */
  lemma SpliceAllText(masked: string, groups: seq<Group>)
    requires groups != [] && groups[0].Text?
    ensures SpliceAll(masked, groups) == SpliceAll(SpliceStep(masked, groups[0].text), groups[1..])
  {
  }

  /** The exception `group(1)` or `trim()` raises for a group that is not text. */
  function GroupFailure(g: Group): JavaException
    requires !g.Text?
  {
    if g.NullGroup? then NullPointerException else IndexOutOfBoundsException
  }

  /**
   * The splice loop over the matches found in the ORIGINAL value, each
   * applied to the string as left by the ones before it; texts that are
   * blank after trimming are skipped.
   */
  function SpliceAll(masked: string, groups: seq<Group>): Result<string>
    decreases |groups|
  {
    if groups == [] then Ok(masked)
    else match groups[0]
      case NullGroup => Err(NullPointerException)
      case NoGroup => Err(IndexOutOfBoundsException)
      case Text(text) => SpliceAll(SpliceStep(masked, text), groups[1..])
  }

  /** The splice loop completes exactly when every match's group(1) is text. */
  lemma {:induction false} SpliceAllOk(masked: string, groups: seq<Group>)
    ensures SpliceAll(masked, groups).Ok? <==> forall k :: 0 <= k < |groups| ==> groups[k].Text?
    decreases |groups|
  {
    if groups != [] && groups[0].Text? {
      SpliceAllOk(SpliceStep(masked, groups[0].text), groups[1..]);
      assert forall k :: 0 <= k < |groups| - 1 ==> groups[1..][k] == groups[k + 1];
    }
  }

  /** A splice loop that completes only masks characters of the value. */
  lemma {:induction false} SpliceAllMasks(masked: string, groups: seq<Group>)
    ensures SpliceAll(masked, groups).Ok? ==> MaskedFrom(masked, SpliceAll(masked, groups).value)
    decreases |groups|
  {
    if groups != [] && groups[0].Text? {
      var next := SpliceStep(masked, groups[0].text);
      SpliceAllText(masked, groups);
      SpliceAllMasks(next, groups[1..]);
      if SpliceAll(next, groups[1..]).Ok? {
        MaskedFromTransitive(masked, next, SpliceAll(next, groups[1..]).value);
      }
    }
  }

  /**
   * The exception the splice loop raises is that of the first match whose
   * group(1) is not text; the matches before it were spliced locally but
   * their result is dropped.
   */
  lemma {:induction false} SpliceAllRaisesAtFirstFailure(masked: string, groups: seq<Group>, k: nat)
    requires k < |groups| && !groups[k].Text?
    requires forall j :: 0 <= j < k ==> groups[j].Text?
    ensures SpliceAll(masked, groups) == Err(GroupFailure(groups[k]))
    decreases k
  {
    if k > 0 {
      SpliceAllRaisesAtFirstFailure(SpliceStep(masked, groups[0].text), groups[1..], k - 1);
    }
  }

  /**
   * The `while (m.find())` loop of maskField, on the local `masked`, given the
   * group texts the matcher yields for the original value.
   */
  method MaskSpans(value: string, groups: seq<Group>) returns (r: Result<string>)
    ensures r == SpliceAll(value, groups)
    ensures r.Ok? ==> MaskedFrom(value, r.value)
  {
    var masked := value;
    var i := 0;
    while i < |groups|
      invariant 0 <= i <= |groups|
      invariant MaskedFrom(value, masked)
      invariant SpliceAll(masked, groups[i..]) == SpliceAll(value, groups)
    {
      assert groups[i..][0] == groups[i] && groups[i..][1..] == groups[i + 1..];
      var group := groups[i];
      ghost var rest := groups[i..];
      if group.NullGroup? {
        return Err(NullPointerException);
      }
      if group.NoGroup? {
        return Err(IndexOutOfBoundsException);
      }
      var text := group.text;
      ghost var before := masked;
      if !IsBlank(Some(Trim(text))) {
        masked := Splice(masked, text);
      }
      SpliceAllText(before, rest);
      MaskedFromTransitive(value, before, masked);
      i := i + 1;
    }
    return Ok(masked);
  }

  // ---------------------------------------------------------------------
  // The recursive field mask (lines 88-132), as a specification ...
  // ---------------------------------------------------------------------

  /**
   * maskField(node, path, regex) on the graph `store`.  One path segment is
   * resolved on `node`: a string is masked (whole, or by capture spans) and
   * written back; a collection is descended element by element with the
   * rest of the path; anything else, and any failure to resolve, is left
   * alone.
   */
  function MaskFieldSpec(store: Store, node: Value, path: seq<string>, regex: Option<string>, find: Finder): Step
    decreases |path|, 1, 0
  {
    if node.Null? || path == [] then Step(Normal, store)
    else match Read(store, node, path[0])
      case None => Step(Normal, store)
      case Some(value) =>
        if value.Str? then
          if IsBlank(regex) then Step(Normal, Written(store, node, path[0], Str(MaskString(value.s))))
          else match find(regex.value, value.s)
            case BadPattern => Step(Raised(PatternSyntaxException), store)
            case Found(groups) =>
              match SpliceAll(value.s, groups)
                case Err(e) => Step(Raised(e), store)
                case Ok(masked) => Step(Normal, Written(store, node, path[0], Str(masked)))
        else if value.Coll? then MaskEachSpec(store, value.elems, path[1..], regex, find)
        else Step(Normal, store)
  }

  /** maskField on each element in iteration order, stopping at the first exception. */
  function MaskEachSpec(store: Store, elems: seq<Value>, path: seq<string>, regex: Option<string>, find: Finder): Step
    decreases |path| + 1, 0, |elems|
  {
    if elems == [] then Step(Normal, store)
    else
      var first := MaskFieldSpec(store, elems[0], path, regex, find);
      if first.outcome.Raised? then first
      else MaskEachSpec(first.store, elems[1..], path, regex, find)
  }

  // ---------------------------------------------------------------------
  // ... and as the method that updates the graph in place.
  // ---------------------------------------------------------------------

  method MaskField(g: ObjectGraph, node: Value, fieldName: seq<string>, regex: Option<string>, find: Finder)
    returns (out: Outcome)
    modifies g
    ensures Step(out, g.records) == MaskFieldSpec(old(g.records), node, fieldName, regex, find)
    decreases |fieldName|, 1
  {
    if node.Null? || |fieldName| == 0 {
      return Normal;
    }
    var value := Read(g.records, node, fieldName[0]);
    if value.None? {
      return Normal;
    }
    match value.value {
      case Str(v) =>
        if IsBlank(regex) {
          g.SetProperty(node, fieldName[0], Str(MaskString(v)));
          return Normal;
        }
        match find(regex.value, v) {
          case BadPattern =>
            return Raised(PatternSyntaxException);
          case Found(groups) =>
            var masked := MaskSpans(v, groups);
            if masked.Err? {
              return Raised(masked.error);
            }
            g.SetProperty(node, fieldName[0], Str(masked.value));
            return Normal;
        }
      case Coll(elems) =>
        var modifiedArray := fieldName[1..];
        out := MaskEach(g, elems, modifiedArray, regex, find);
      case _ =>
        return Normal;
    }
  }

  /** The for loop over a collection: maskField on each element with the rest of the path. */
  method MaskEach(g: ObjectGraph, elems: seq<Value>, path: seq<string>, regex: Option<string>, find: Finder)
    returns (out: Outcome)
    modifies g
    ensures Step(out, g.records) == MaskEachSpec(old(g.records), elems, path, regex, find)
    decreases |path| + 1, 0
  {
    ghost var s0 := g.records;
    var i := 0;
    while i < |elems|
      invariant 0 <= i <= |elems|
      invariant MaskEachSpec(g.records, elems[i..], path, regex, find) == MaskEachSpec(s0, elems, path, regex, find)
    {
      MaskEachAt(g.records, elems, i, path, regex, find);
      out := MaskField(g, elems[i], path, regex, find);
      if out.Raised? {
        return;
      }
      i := i + 1;
    }
    return Normal;
  }

  /** The elements from the i-th on: element i, then the rest unless it raised. */
  lemma MaskEachAt(store: Store, elems: seq<Value>, i: int, path: seq<string>, regex: Option<string>, find: Finder)
    requires 0 <= i < |elems|
    ensures var first := MaskFieldSpec(store, elems[i], path, regex, find);
      MaskEachSpec(store, elems[i..], path, regex, find)
        == if first.outcome.Raised? then first else MaskEachSpec(first.store, elems[i + 1..], path, regex, find)
  {
    assert elems[i..][0] == elems[i] && elems[i..][1..] == elems[i + 1..];
  }

  // ---------------------------------------------------------------------
  // Specification parsing (maskObject, lines 61-78).
  // ---------------------------------------------------------------------

  /**
   * The maskField calls one entry `path ["::" regex]*` stands for, in order,
   * or None when `formats[0]` would fail because the entry splits into
   * nothing (it is made of "::" only).
   */
  function EntryCalls(entry: string): Option<seq<Call>>
  {
    var formats := Split(entry, RegSign);
    if |formats| == 0 then None
    else
      var splitedFieldName := Split(formats[0], ListSign);
      if |formats| == 1 then Some([Call(splitedFieldName, None)])
      else Some(ClauseCalls(splitedFieldName, formats[1..]))
  }

  /** The inner loop over modifiedFormats: one call per regex clause, in order, all on `path`. */
  function ClauseCalls(path: seq<string>, clauses: seq<string>): seq<Call>
    decreases |clauses|
  {
    if clauses == [] then []
    else [Call(path, Some(clauses[0]))] + ClauseCalls(path, clauses[1..])
  }

  /** Call k applies clause k to `path`, and there is one call per clause. */
  lemma {:induction false} ClauseCallsShape(path: seq<string>, clauses: seq<string>)
    ensures |ClauseCalls(path, clauses)| == |clauses|
    ensures forall k :: 0 <= k < |clauses| ==> ClauseCalls(path, clauses)[k] == Call(path, Some(clauses[k]))
    decreases |clauses|
  {
    if clauses != [] {
      ClauseCallsShape(path, clauses[1..]);
      forall k | 1 <= k < |clauses|
        ensures ClauseCalls(path, clauses)[k] == Call(path, Some(clauses[k]))
      {
        assert clauses[1..][k - 1] == clauses[k];
      }
    }
  }

  /**
   * An entry without a "::" clause (also "a::", whose empty clause split
   * drops) is one call with no regex; otherwise one call per clause, in the
   * order written, all with the same path segments, none of which contains
   * "(List).".  Only an entry that is "::" repeated one or more times
   * splits into nothing and so has no plan.
   */
  lemma EntryCallsShape(entry: string)
    ensures EntryCalls(entry).None? <==> exists n :: 1 <= n && entry == Repeat(RegSign, n)
    ensures var formats := Split(entry, RegSign); var r := EntryCalls(entry);
      && (r.None? <==> |formats| == 0)
      && (r.Some? ==>
            && |r.value| == (if |formats| == 1 then 1 else |formats| - 1)
            && forall k :: 0 <= k < |r.value| ==>
                 && r.value[k].path == Split(formats[0], ListSign)
                 && (forall q :: 0 <= q < |r.value[k].path| ==> !Contains(r.value[k].path[q], ListSign))
                 && r.value[k].regex == (if |formats| == 1 then None else Some(formats[k + 1])))
  {
    SplitEmpty(entry, RegSign);
    var formats := Split(entry, RegSign);
    if |formats| > 0 {
      SplitShape(formats[0], ListSign);
      ClauseCallsShape(Split(formats[0], ListSign), formats[1..]);
    }
  }

  /** The planned calls, made in order until one raises. */
  function RunCalls(store: Store, body: Value, calls: seq<Call>, find: Finder): Step
    decreases |calls|
  {
    if calls == [] then Step(Normal, store)
    else
      var first := MaskFieldSpec(store, body, calls[0].path, calls[0].regex, find);
      if first.outcome.Raised? then first
      else RunCalls(first.store, body, calls[1..], find)
  }

  /** A plan of one call is that call. */
  lemma RunCallsSingle(store: Store, body: Value, c: Call, find: Finder)
    ensures RunCalls(store, body, [c], find) == MaskFieldSpec(store, body, c.path, c.regex, find)
  {
    var first := MaskFieldSpec(store, body, c.path, c.regex, find);
    assert [c][1..] == [];
    assert RunCalls(first.store, body, [], find) == Step(Normal, first.store);
  }

  /** The clauses from the j-th on: clause j, then the rest unless it raised. */
  lemma RunClausesAt(store: Store, body: Value, path: seq<string>, clauses: seq<string>, j: int, find: Finder)
    requires 0 <= j < |clauses|
    ensures var first := MaskFieldSpec(store, body, path, Some(clauses[j]), find);
      RunCalls(store, body, ClauseCalls(path, clauses[j..]), find)
        == if first.outcome.Raised? then first else RunCalls(first.store, body, ClauseCalls(path, clauses[j + 1..]), find)
  {
    assert clauses[j..][0] == clauses[j] && clauses[j..][1..] == clauses[j + 1..];
    var calls := ClauseCalls(path, clauses[j..]);
    assert calls[0] == Call(path, Some(clauses[j])) && calls[1..] == ClauseCalls(path, clauses[j + 1..]);
  }

  /** One entry: its planned calls, or the exception of `formats[0]`. */
  function RunEntry(store: Store, body: Value, entry: string, find: Finder): Step
  {
    match EntryCalls(entry)
    case None => Step(Raised(ArrayIndexOutOfBoundsException), store)
    case Some(calls) => RunCalls(store, body, calls, find)
  }

  /** The entries of one configuration value, each in turn, until one raises. */
  function RunEntries(store: Store, body: Value, entries: seq<string>, find: Finder): Step
    decreases |entries|
  {
    if entries == [] then Step(Normal, store)
    else
      var first := RunEntry(store, body, entries[0], find);
      if first.outcome.Raised? then first
      else RunEntries(first.store, body, entries[1..], find)
  }

  /** The entries from the i-th on: entry i, then the rest unless it raised. */
  lemma RunEntriesAt(store: Store, body: Value, entries: seq<string>, i: int, find: Finder)
    requires 0 <= i < |entries|
    ensures var first := RunEntry(store, body, entries[i], find);
      RunEntries(store, body, entries[i..], find)
        == if first.outcome.Raised? then first else RunEntries(first.store, body, entries[i + 1..], find)
  {
    assert entries[i..][0] == entries[i] && entries[i..][1..] == entries[i + 1..];
  }

  /**
   * maskObject(body), where `fields` is the configuration value looked up for
   * the body's class (None when there is none).
   */
  function MaskObjectSpec(store: Store, body: Value, fields: Option<string>, find: Finder): Step
  {
    if body.Null? then Step(Raised(NullPointerException), store)
    else if IsBlank(fields) then Step(Normal, store)
    else RunEntries(store, body, Split(fields.value, EntrySign), find)
  }

  method MaskObject(g: ObjectGraph, body: Value, fields: Option<string>, find: Finder) returns (out: Outcome)
    modifies g
    ensures Step(out, g.records) == MaskObjectSpec(old(g.records), body, fields, find)
  {
    if body.Null? {
      return Raised(NullPointerException);
    }
    if IsBlank(fields) {
      return Normal;
    }
    out := MaskEntries(g, body, Split(fields.value, EntrySign), find);
  }

  /** maskObject's loop over the comma-separated entries of the configuration value. */
  method MaskEntries(g: ObjectGraph, body: Value, entries: seq<string>, find: Finder) returns (out: Outcome)
    modifies g
    ensures Step(out, g.records) == RunEntries(old(g.records), body, entries, find)
  {
    ghost var s0 := g.records;
    var i := 0;
    while i < |entries|
      invariant 0 <= i <= |entries|
      invariant RunEntries(g.records, body, entries[i..], find) == RunEntries(s0, body, entries, find)
    {
      RunEntriesAt(g.records, body, entries, i, find);
      out := MaskEntry(g, body, entries[i], find);
      if out.Raised? {
        return;
      }
      i := i + 1;
    }
    return Normal;
  }

  /** The body of maskObject's loop for one entry `field`. */
  method MaskEntry(g: ObjectGraph, body: Value, field: string, find: Finder) returns (out: Outcome)
    modifies g
    ensures Step(out, g.records) == RunEntry(old(g.records), body, field, find)
  {
    var formats := Split(field, RegSign);
    if |formats| == 0 {
      return Raised(ArrayIndexOutOfBoundsException);
    }
    var fieldName := formats[0];
    var splitedFieldName := Split(fieldName, ListSign);
    if |formats| == 1 {
      RunCallsSingle(g.records, body, Call(splitedFieldName, None), find);
      out := MaskField(g, body, splitedFieldName, None, find);
      return;
    }
    var modifiedFormats := formats[1..];
    out := MaskClauses(g, body, splitedFieldName, modifiedFormats, find);
  }

  /** The inner for loop over modifiedFormats: maskField once per regex clause. */
  method MaskClauses(g: ObjectGraph, body: Value, path: seq<string>, clauses: seq<string>, find: Finder)
    returns (out: Outcome)
    modifies g
    ensures Step(out, g.records) == RunCalls(old(g.records), body, ClauseCalls(path, clauses), find)
  {
    ghost var s0 := g.records;
    var j := 0;
    assert clauses[j..] == clauses;
    while j < |clauses|
      invariant 0 <= j <= |clauses|
      invariant RunCalls(g.records, body, ClauseCalls(path, clauses[j..]), find)
             == RunCalls(s0, body, ClauseCalls(path, clauses), find)
    {
      RunClausesAt(g.records, body, path, clauses, j, find);
      out := MaskField(g, body, path, Some(clauses[j]), find);
      if out.Raised? {
        return;
      }
      j := j + 1;
    }
    assert clauses[j..] == [];
    return Normal;
  }

  // ---------------------------------------------------------------------
  // The entry point (beforeBodyWrite, lines 44-54).
  // ---------------------------------------------------------------------

  /** maskObject on each element of a collection body, in order, until one raises. */
  function MaskEachObjectSpec(store: Store, elems: seq<Value>, fieldsOf: Value -> Option<string>, find: Finder): Step
    decreases |elems|
  {
    if elems == [] then Step(Normal, store)
    else
      var first := MaskObjectSpec(store, elems[0], fieldsOf(elems[0]), find);
      if first.outcome.Raised? then first
      else MaskEachObjectSpec(first.store, elems[1..], fieldsOf, find)
  }

  /**
   * beforeBodyWrite(body): `fieldsOf` gives the configuration value for an
   * object's class (the lookup itself is outside this model).
   */
  function BeforeBodyWriteSpec(store: Store, body: Value, fieldsOf: Value -> Option<string>, find: Finder): Step
  {
    if body.Coll? then MaskEachObjectSpec(store, body.elems, fieldsOf, find)
    else MaskObjectSpec(store, body, fieldsOf(body), find)
  }

  /** Masks the body in place and hands back the very same body. */
  method BeforeBodyWrite(g: ObjectGraph, body: Value, fieldsOf: Value -> Option<string>, find: Finder)
    returns (r: Result<Value>)
    modifies g
    ensures r.Ok? ==> r.value == body
    ensures Step(if r.Ok? then Normal else Raised(r.error), g.records)
         == BeforeBodyWriteSpec(old(g.records), body, fieldsOf, find)
  {
    if body.Coll? {
      var elems := body.elems;
      ghost var s0 := g.records;
      var i := 0;
      while i < |elems|
        invariant 0 <= i <= |elems|
        invariant MaskEachObjectSpec(g.records, elems[i..], fieldsOf, find)
               == MaskEachObjectSpec(s0, elems, fieldsOf, find)
      {
        assert elems[i..][0] == elems[i] && elems[i..][1..] == elems[i + 1..];
        var out := MaskObject(g, elems[i], fieldsOf(elems[i]), find);
        if out.Raised? {
          return Err(out.error);
        }
        i := i + 1;
      }
    } else {
      var out := MaskObject(g, body, fieldsOf(body), find);
      if out.Raised? {
        return Err(out.error);
      }
    }
    return Ok(body);
  }
}

/**
 * What the engine promises about the graph it is handed, stated on the
 * specification functions of MaskResponseHandler.
 */
module MaskResponseHandlerProperties {
  import opened Wrappers
  import opened JavaStrings
  import opened MaskUtil
  import opened Beans
  import opened MaskResponseHandler

  lemma StoreMaskedFromReflexive(s: Store)
    ensures StoreMaskedFrom(s, s)
  {
  }

  /**
   * maskField only ever masks characters of string properties, whatever the
   * path, the regex or the matcher's answers: no record or property appears
   * or disappears, no non-string value changes, and every string keeps its
   * length, each character being kept or replaced by its mask.
   */
  lemma {:induction false} MaskFieldOnlyMasks(store: Store, node: Value, path: seq<string>, regex: Option<string>, find: Finder)
    ensures StoreMaskedFrom(store, MaskFieldSpec(store, node, path, regex, find).store)
    decreases |path|, 1, 0
  {
    if node.Null? || path == [] {
      StoreMaskedFromReflexive(store);
    } else {
      match Read(store, node, path[0])
      case None =>
        StoreMaskedFromReflexive(store);
      case Some(value) =>
        if value.Str? {
          if IsBlank(regex) {
            MaskStringMasksAll(value.s);
            WrittenMasks(store, node, path[0], value.s, MaskString(value.s));
          } else {
            match find(regex.value, value.s)
            case BadPattern =>
              StoreMaskedFromReflexive(store);
            case Found(groups) =>
              match SpliceAll(value.s, groups)
              case Err(_) =>
                StoreMaskedFromReflexive(store);
              case Ok(masked) =>
                SpliceAllMasks(value.s, groups);
                WrittenMasks(store, node, path[0], value.s, masked);
          }
        } else if value.Coll? {
          MaskEachOnlyMasks(store, value.elems, path[1..], regex, find);
        } else {
          StoreMaskedFromReflexive(store);
        }
    }
  }

  lemma {:induction false} MaskEachOnlyMasks(store: Store, elems: seq<Value>, path: seq<string>, regex: Option<string>, find: Finder)
    ensures StoreMaskedFrom(store, MaskEachSpec(store, elems, path, regex, find).store)
    decreases |path| + 1, 0, |elems|
  {
    if elems == [] {
      StoreMaskedFromReflexive(store);
    } else {
      var first := MaskFieldSpec(store, elems[0], path, regex, find);
      MaskFieldOnlyMasks(store, elems[0], path, regex, find);
      if !first.outcome.Raised? {
        MaskEachOnlyMasks(first.store, elems[1..], path, regex, find);
        StoreMaskedFromTransitive(store, first.store, MaskEachSpec(first.store, elems[1..], path, regex, find).store);
      }
    }
  }

  lemma {:induction false} RunCallsOnlyMasks(store: Store, body: Value, calls: seq<Call>, find: Finder)
    ensures StoreMaskedFrom(store, RunCalls(store, body, calls, find).store)
    decreases |calls|
  {
    if calls == [] {
      StoreMaskedFromReflexive(store);
    } else {
      var first := MaskFieldSpec(store, body, calls[0].path, calls[0].regex, find);
      MaskFieldOnlyMasks(store, body, calls[0].path, calls[0].regex, find);
      if !first.outcome.Raised? {
        RunCallsOnlyMasks(first.store, body, calls[1..], find);
        StoreMaskedFromTransitive(store, first.store, RunCalls(first.store, body, calls[1..], find).store);
      }
    }
  }

  lemma {:induction false} RunEntriesOnlyMasks(store: Store, body: Value, entries: seq<string>, find: Finder)
    ensures StoreMaskedFrom(store, RunEntries(store, body, entries, find).store)
    decreases |entries|
  {
    if entries == [] {
      StoreMaskedFromReflexive(store);
    } else {
      var first := RunEntry(store, body, entries[0], find);
      match EntryCalls(entries[0])
      case None =>
        StoreMaskedFromReflexive(store);
      case Some(calls) =>
        RunCallsOnlyMasks(store, body, calls, find);
      if !first.outcome.Raised? {
        RunEntriesOnlyMasks(first.store, body, entries[1..], find);
        StoreMaskedFromTransitive(store, first.store, RunEntries(first.store, body, entries[1..], find).store);
      }
    }
  }

  /** maskObject, too, only masks characters of string properties, even when it raises part-way. */
  lemma MaskObjectOnlyMasks(store: Store, body: Value, fields: Option<string>, find: Finder)
    ensures StoreMaskedFrom(store, MaskObjectSpec(store, body, fields, find).store)
  {
    if body.Null? || IsBlank(fields) {
      StoreMaskedFromReflexive(store);
    } else {
      RunEntriesOnlyMasks(store, body, Split(fields.value, EntrySign), find);
    }
  }

  lemma {:induction false} MaskEachObjectOnlyMasks(store: Store, elems: seq<Value>, fieldsOf: Value -> Option<string>, find: Finder)
    ensures StoreMaskedFrom(store, MaskEachObjectSpec(store, elems, fieldsOf, find).store)
    decreases |elems|
  {
    if elems == [] {
      StoreMaskedFromReflexive(store);
    } else {
      var first := MaskObjectSpec(store, elems[0], fieldsOf(elems[0]), find);
      MaskObjectOnlyMasks(store, elems[0], fieldsOf(elems[0]), find);
      if !first.outcome.Raised? {
        MaskEachObjectOnlyMasks(first.store, elems[1..], fieldsOf, find);
        StoreMaskedFromTransitive(store, first.store, MaskEachObjectSpec(first.store, elems[1..], fieldsOf, find).store);
      }
    }
  }

  /**
   * The whole response: beforeBodyWrite leaves the graph with exactly the
   * same shape and only masked characters in its strings.
   */
  lemma BeforeBodyWriteOnlyMasks(store: Store, body: Value, fieldsOf: Value -> Option<string>, find: Finder)
    ensures StoreMaskedFrom(store, BeforeBodyWriteSpec(store, body, fieldsOf, find).store)
  {
    if body.Coll? {
      MaskEachObjectOnlyMasks(store, body.elems, fieldsOf, find);
    } else {
      MaskObjectOnlyMasks(store, body, fieldsOf(body), find);
    }
  }

  /**
   * Entries run one after the other on the graph the earlier ones left:
   * running `a + b` is running `a`, then, unless it raised, `b`.
   */
  lemma {:induction false} RunEntriesAppend(store: Store, body: Value, a: seq<string>, b: seq<string>, find: Finder)
    ensures var first := RunEntries(store, body, a, find);
      RunEntries(store, body, a + b, find) ==
        if first.outcome.Raised? then first else RunEntries(first.store, body, b, find)
    decreases |a|
  {
    if a == [] {
      assert a + b == b;
    } else {
      assert (a + b)[0] == a[0] && (a + b)[1..] == a[1..] + b;
      var step := RunEntry(store, body, a[0], find);
      if !step.outcome.Raised? {
        RunEntriesAppend(step.store, body, a[1..], b, find);
      }
    }
  }

  /** Without a regex nothing can raise: whole-string masking never fails, at any depth. */
  lemma {:induction false} BlankRegexNeverRaises(store: Store, node: Value, path: seq<string>, regex: Option<string>, find: Finder)
    requires IsBlank(regex)
    ensures MaskFieldSpec(store, node, path, regex, find).outcome == Normal
    decreases |path|, 1, 0
  {
    if !node.Null? && path != [] {
      match Read(store, node, path[0])
      case None =>
      case Some(value) =>
        if value.Coll? {
          BlankRegexNeverRaisesEach(store, value.elems, path[1..], regex, find);
        }
    }
  }

  lemma {:induction false} BlankRegexNeverRaisesEach(store: Store, elems: seq<Value>, path: seq<string>, regex: Option<string>, find: Finder)
    requires IsBlank(regex)
    ensures MaskEachSpec(store, elems, path, regex, find).outcome == Normal
    decreases |path| + 1, 0, |elems|
  {
    if elems != [] {
      BlankRegexNeverRaises(store, elems[0], path, regex, find);
      var first := MaskFieldSpec(store, elems[0], path, regex, find);
      BlankRegexNeverRaisesEach(first.store, elems[1..], path, regex, find);
    }
  }

  /**
   * The cases of maskField: no node, no path or an unreadable first segment
   * change nothing; a string is masked and written back even when segments
   * remain unconsumed; a collection is descended with the rest of the path;
   * any other value, a nested bean included, is left alone.
   */
  lemma MaskFieldCases(store: Store, node: Value, path: seq<string>, regex: Option<string>, find: Finder)
    ensures node.Null? || path == [] || Read(store, node, path[0]).None? ==>
      MaskFieldSpec(store, node, path, regex, find) == Step(Normal, store)
    ensures !node.Null? && path != [] && IsBlank(regex) ==>
      forall v :: Read(store, node, path[0]) == Some(Str(v)) ==>
        MaskFieldSpec(store, node, path, regex, find) == Step(Normal, Written(store, node, path[0], Str(MaskString(v))))
    ensures !node.Null? && path != [] && !IsBlank(regex) ==>
      forall v :: Read(store, node, path[0]) == Some(Str(v)) ==>
        var found := find(regex.value, v);
        MaskFieldSpec(store, node, path, regex, find) ==
          if found.BadPattern? then Step(Raised(PatternSyntaxException), store)
          else if SpliceAll(v, found.groups).Err? then Step(Raised(SpliceAll(v, found.groups).error), store)
          else Step(Normal, Written(store, node, path[0], Str(SpliceAll(v, found.groups).value)))
    ensures !node.Null? && path != [] ==>
      forall elems :: Read(store, node, path[0]) == Some(Coll(elems)) ==>
        MaskFieldSpec(store, node, path, regex, find) == MaskEachSpec(store, elems, path[1..], regex, find)
    ensures !node.Null? && path != [] ==>
      forall v :: Read(store, node, path[0]) == Some(v) && !v.Str? && !v.Coll? ==>
        MaskFieldSpec(store, node, path, regex, find) == Step(Normal, store)
  {
  }

  /** With a path of no segments, maskField on every element is a no-op. */
  lemma {:induction false} MaskEachEmptyPath(store: Store, elems: seq<Value>, regex: Option<string>, find: Finder)
    ensures MaskEachSpec(store, elems, [], regex, find) == Step(Normal, store)
    decreases |elems|
  {
    if elems != [] {
      MaskEachEmptyPath(store, elems[1..], regex, find);
    }
  }

  /**
   * Masking a plain (undotted) field with no regex twice is the same as
   * masking it once: the field is a fixed point after the first pass.
   */
  lemma MaskFieldTwice(store: Store, node: Value, name: string, regex: Option<string>, find: Finder)
    requires !Contains(name, ".") && IsBlank(regex)
    ensures var once := MaskFieldSpec(store, node, [name], regex, find);
      MaskFieldSpec(once.store, node, [name], regex, find) == once
  {
    var once := MaskFieldSpec(store, node, [name], regex, find);
    if !node.Null? {
      match Read(store, node, name)
      case None =>
      case Some(value) =>
        if value.Str? {
          var m := MaskString(value.s);
          if Writable(store, node, name) {
            ReadAfterWrite(store, node, name, Str(m));
            MaskStringIdempotent(value.s);
            WriteSameAgain(once.store, node, name, Str(m));
          }
        } else if value.Coll? {
          assert [name][1..] == [];
          MaskEachEmptyPath(store, value.elems, regex, find);
        }
    }
  }

  /** Writing back the value a plain property already holds changes nothing. */
  lemma WriteSameAgain(store: Store, node: Value, name: string, v: Value)
    requires !Contains(name, ".")
    requires Read(store, node, name) == Some(v)
    ensures Written(store, node, name, v) == store
  {
    assert IndexOf(name, ".") == -1;
    assert Components(name) == [name];
    assert [name][..0] == [];
    if Writable(store, node, name) {
      var r := node.ref;
      assert store[r].props[name := v] == store[r].props;
      assert store[r].(props := store[r].props) == store[r];
    }
  }

  /**
   * A single captured text whose first character does not occur before it
   * is masked where it stands, the rest of the string kept.
   */
  lemma SpliceAllSingle(p: string, t: string, q: string)
    requires |t| > 0 && t[0] > ' ' && t[0] !in p
    ensures SpliceAll(p + t + q, [Text(t)]) == Ok(p + MaskString(t) + q)
  {
    var s := p + t + q;
    assert s[..|p|] == p && s[|p|..|p| + |t|] == t && s[|p| + |t|..] == q;
    assert OccursAt(s, t, |p|);
    FirstCharAbsent(s, t, |p|);
    assert IndexOf(s, t) == |p|;
    assert Splice(s, t) == p + MaskString(t) + q;
    TrimmedBlank(t);
    SpliceOne(s, t);
  }

  /** A loop over one text match is one splice step. */
  lemma SpliceOne(s: string, t: string)
    ensures SpliceAll(s, [Text(t)]) == Ok(SpliceStep(s, t))
  {
    SpliceAllText(s, [Text(t)]);
    assert [Text(t)][1..] == [];
  }


  /**
   * The splice replaces the FIRST occurrence of the captured text, not
   * necessarily the occurrence the match came from: when the text occurs
   * first at `i` and the pattern captured it at a later `j`, the span at `i`
   * is masked and the span at `j` is left as it was.
   */
  lemma SpliceFirstOccurrence(s: string, t: string, i: int, j: int)
    requires !IsBlank(Some(Trim(t)))
    requires OccursAt(s, t, i) && forall k :: 0 <= k < i ==> !OccursAt(s, t, k)
    requires OccursAt(s, t, j) && i + |t| <= j
    ensures SpliceAll(s, [Text(t)]) == Ok(Splice(s, t))
    ensures Splice(s, t)[i..i + |t|] == MaskString(t)
    ensures Splice(s, t)[j..j + |t|] == t
  {
    SpliceOne(s, t);
    assert IndexOf(s, t) == i;
    SpliceShape(s, t);
    SameSuffixSameSpan(Splice(s, t), s, i + |t|, j, |t|);
  }

  /** Two strings of equal length that agree from `e` on agree on every span that starts there or later. */
  lemma SameSuffixSameSpan(r: string, s: string, e: int, j: int, n: int)
    requires 0 <= e <= j && 0 <= n && j + n <= |s| == |r| && r[e..] == s[e..]
    ensures r[j..j + n] == s[j..j + n]
  {
    forall k | j <= k < j + n
      ensures r[k] == s[k]
    {
      assert r[k] == r[e..][k - e];
      assert s[k] == s[e..][k - e];
    }
  }





  /** An entry that is a bare property name: one call masking it whole. */
  lemma EntryCallsPlain(name: string)
    requires ':' !in name && '(' !in name
    ensures EntryCalls(name) == Some([Call([name], None)])
  {
    SplitAbsent(name, RegSign);
    SplitAbsent(name, ListSign);
  }

  /** "name::": the empty clause is a trailing piece split drops, so no regex applies. */
  lemma EntryCallsEmptyClause(name: string)
    requires name != [] && ':' !in name && '(' !in name
    ensures EntryCalls(name + RegSign) == Some([Call([name], None)])
  {
    var empty: string := [];
    assert name + RegSign == name + RegSign + empty;
    PiecesFirst(name, RegSign, empty);
    SplitAbsent(empty, RegSign);
    assert DropTrailingEmpty([name, empty]) == [name] by {
      assert [name, empty][..1] == [name];
    }
    assert Split(name + RegSign, RegSign) == [name];
    SplitAbsent(name, ListSign);
  }

  /** "::" alone splits into nothing, so formats[0] raises. */
  lemma EntryCallsOnlySeparator()
    ensures EntryCalls(RegSign) == None
  {
    var empty: string := [];
    assert RegSign == empty + RegSign + empty;
    PiecesFirst(empty, RegSign, empty);
    SplitAbsent(empty, RegSign);
    assert DropTrailingEmpty([empty, empty]) == [] by {
      assert [empty, empty][..1] == [empty];
      assert [empty][..0] == [];
    }
  }

  /**
   * "outer(List).inner": one call with the two segments, so "inner" is
   * masked in every element of the collection "outer".
   */
  lemma EntryCallsList(outer: string, inner: string)
    requires inner != []
    requires ':' !in outer && '(' !in outer && ':' !in inner && '(' !in inner
    ensures EntryCalls(outer + ListSign + inner) == Some([Call([outer, inner], None)])
  {
    var s := outer + ListSign + inner;
    assert ':' !in s by {
      assert forall k :: 0 <= k < |ListSign| ==> ListSign[k] != ':';
    }
    SplitAbsent(s, RegSign);
    PiecesFirst(outer, ListSign, inner);
    SplitAbsent(inner, ListSign);
    assert Split(s, ListSign) == [outer, inner];
  }

  /** "name::A::B": two calls on the same segment, with regexes A then B. */
  lemma EntryCallsTwoClauses(name: string, a: string, b: string)
    requires b != []
    requires ':' !in name && '(' !in name && ':' !in a && ':' !in b
    ensures EntryCalls(name + RegSign + a + RegSign + b) == Some([Call([name], Some(a)), Call([name], Some(b))])
  {
    SplitThree(name, a, b, RegSign);
    SplitAbsent(name, ListSign);
    assert [name, a, b][1..] == [a, b] && [a, b][1..] == [b] && [b][1..] == [];
    assert ClauseCalls([name], [b]) == [Call([name], Some(b))];
    assert ClauseCalls([name], [a, b]) == [Call([name], Some(a)), Call([name], Some(b))];
  }
}
