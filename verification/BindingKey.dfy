/** Binding keys: splitting a string into parts, the builder, and printing the parts. */
module BindingKey {
  import opened Options

  /** `cb_binding_key`: a list of parts, or NULL. */
  type Key = Option<seq<string>>

  /** `cb_binding_key_is_empty`. */
  predicate IsEmpty(key: Key) {
    key.None? || key.value == ["#"]
  }

  const DOT: char := '.'

  // ----- splitting and joining -----

  /** The characters up to the first dot. */
  function First(s: string): (p: string)
    ensures |p| <= |s| && p == s[..|p|] && DOT !in p
    ensures |p| < |s| ==> s[|p|] == DOT
  {
    if s == [] || s[0] == DOT then [] else [s[0]] + First(s[1..])
  }

  /** The parts between the dots: a string without dots is one part, and so is the empty string. */
  function Split(s: string): (parts: seq<string>)
    ensures parts != []
    decreases |s|
  {
    var p := First(s);
    if |p| == |s| then [p] else [p] + Split(s[|p| + 1..])
  }

  /** The parts with dots between them. */
  function Joined(parts: seq<string>): string {
    if parts == [] then []
    else if |parts| == 1 then parts[0]
    else parts[0] + [DOT] + Joined(parts[1..])
  }

  /** Joining the parts of a string gives it back. */
  lemma {:induction false} JoinOfSplit(s: string)
    ensures Joined(Split(s)) == s
    decreases |s|
  {
    hide First;
    var p := First(s);
    if |p| == |s| {
    } else {
      var rest := s[|p| + 1..];
      JoinOfSplit(rest);
      assert Split(s) == [p] + Split(rest);
      assert ([p] + Split(rest))[1..] == Split(rest);
      assert s == s[..|p|] + [s[|p|]] + rest;
    }
  }

  predicate DotFree(parts: seq<string>) {
    forall i :: 0 <= i < |parts| ==> DOT !in parts[i]
  }

  lemma {:induction false} FirstOfPart(p: string, rest: string)
    requires DOT !in p && (rest == [] || rest[0] == DOT)
    ensures First(p + rest) == p
    decreases |p|
  {
    if p == [] {
      assert p + rest == rest;
    } else {
      assert p[0] in p && p == [p[0]] + p[1..];
      assert (p + rest)[0] == p[0] && (p + rest)[1..] == p[1..] + rest;
      FirstOfPart(p[1..], rest);
    }
  }

  /** Splitting what was joined gives the parts back, if there are any and they have no dots. */
  lemma {:induction false} SplitOfJoin(parts: seq<string>)
    requires parts != [] && DotFree(parts)
    ensures Split(Joined(parts)) == parts
    decreases |parts|
  {
    var p := parts[0];
    if |parts| == 1 {
      FirstOfPart(p, []);
      assert p + [] == p;
    } else {
      var rest := [DOT] + Joined(parts[1..]);
      FirstOfPart(p, rest);
      assert Joined(parts) == p + rest;
      assert (p + rest)[|p| + 1..] == Joined(parts[1..]);
      SplitOfJoin(parts[1..]);
    }
  }

  /** Parts of a string have no dots, so what splitting gives is exactly the non-empty lists of dot-free parts. */
  lemma {:induction false} SplitIsDotFree(s: string)
    ensures DotFree(Split(s))
    decreases |s|
  {
    var p := First(s);
    if |s| <= |p| {
    } else {
      SplitIsDotFree(s[|p| + 1..]);
    }
  }

  lemma FirstOfNoDot(s: string)
    requires forall i :: 0 <= i < |s| ==> s[i] != '.'
    ensures First(s) == s
  {
  }

  /** A string is cut at its dots, so that there is one part more than there are dots, and empty parts are kept. */
  lemma {:induction false} SplitAtDot(a: string, b: string)
    requires forall i :: 0 <= i < |a| ==> a[i] != '.'
    ensures Split(a) == [a] && Split(a + "." + b) == [a] + Split(b)
    ensures Joined([a, b]) == a + "." + b
  {
    FirstOfNoDot(a);
    assert a + "." + b == a + ("." + b);
    FirstOfPart(a, "." + b);
    assert (a + "." + b)[|a| + 1..] == b;
  }

  /** For instance. */
  lemma SplitExample()
    ensures Split("a.b") == ["a", "b"] && Joined(["a", "b"]) == "a.b"
  {
    hide Split, First, Joined;
    assert "a.b" == "a" + "." + "b";
    SplitAtDot("a", "b");
    SplitAtDot("b", "");
  }

  // ----- the builder -----

  /** `cb_binding_key_builder`: it takes as many parts as it was made for. */
  class Builder {
    var parts: array<string>
    var n: nat

    ghost predicate Valid()
      reads this
    {
      n <= parts.Length
    }

    ghost function Added(): seq<string>
      requires Valid()
      reads this, parts
    {
      parts[..n]
    }

    /** `cb_binding_key_builder_with_capacity`. */
    constructor (capacity: nat)
      ensures Valid() && fresh(parts) && parts.Length == capacity && n == 0
    {
      parts := new string[capacity](_ => []);
      n := 0;
    }

    /** `cb_binding_key_builder_add_str`. */
    method AddStr(s: string) returns (ok: bool)
      requires Valid()
      modifies this`n, parts
      ensures Valid() && ok == (old(n) < parts.Length)
      ensures Added() == if ok then old(Added()) + [s] else old(Added())
    {
      if n >= parts.Length {
        return false;
      }
      parts[n] := s;
      n := n + 1;
      ok := true;
    }

    /** `cb_binding_key_build`: the parts are handed over. */
    method Build() returns (key: Key)
      requires Valid()
      modifies this
      ensures key == Some(old(Added())) && Valid() && Added() == [] && parts.Length == 0
    {
      key := Some(parts[..n]);
      parts := new string[0];
      n := 0;
    }
  }

  // ----- parsing -----

  lemma FirstStep(s: string, i: nat)
    requires i <= |s|
    ensures First(s[i..]) == if i == |s| || s[i] == DOT then [] else [s[i]] + First(s[i + 1..])
  {
    if i < |s| {
      assert s[i..][1..] == s[i + 1..];
    }
  }

  /** `strsep` with a dot: the next part, and what comes after its dot, or NULL at the end. */
  method StrSep(s: string) returns (part: string, rest: Option<string>)
    ensures part == First(s)
    ensures rest == if |part| == |s| then None else Some(s[|part| + 1..])
  {
    hide First;
    var i := 0;
    assert s[i..] == s;
    while i < |s| && s[i] != DOT
      invariant i <= |s| && s[..i] + First(s[i..]) == First(s)
    {
      FirstStep(s, i);
      assert s[..i] + ([s[i]] + First(s[i + 1..])) == s[..i + 1] + First(s[i + 1..]);
      i := i + 1;
    }
    FirstStep(s, i);
    part := s[..i];
    assert part == s[..i] + [];
    rest := if i == |s| then None else Some(s[i + 1..]);
  }

  function SplitRest(rest: Option<string>): seq<string> {
    if rest.None? then [] else Split(rest.value)
  }

  ghost function Left(rest: Option<string>): nat {
    if rest.None? then 0 else |rest.value| + 1
  }

  /** What `strsep` takes off the parts that are left. */
  lemma SplitStep(s: string)
    ensures var p := First(s);
      Split(s) == [p] + SplitRest(if |p| == |s| then None else Some(s[|p| + 1..]))
  {
  }

  method CountParts(s: string) returns (count: nat)
    ensures count == |Split(s)|
  {
    hide First, Split;
    count := 0;
    var buf := Some(s);
    while buf.Some?
      invariant count + |SplitRest(buf)| == |Split(s)|
      decreases Left(buf)
    {
      SplitStep(buf.value);
      var part;
      part, buf := StrSep(buf.value);
      count := count + 1;
    }
  }

  /** `cb_binding_key_from_str`, after formatting: the parts are counted, and then added to a builder of that capacity,
      which refuses none of them. */
  method FromStr(s: string) returns (key: Key)
    ensures key == Some(Split(s))
  {
    hide First, Split;
    var count := CountParts(s);
    var builder := new Builder(count);
    var buf := Some(s);
    while buf.Some?
      invariant builder.Valid() && fresh(builder) && fresh(builder.parts) && builder.parts.Length == |Split(s)|
      invariant builder.Added() + SplitRest(buf) == Split(s)
      decreases Left(buf)
    {
      SplitStep(buf.value);
      var part, ok;
      ghost var was := builder.Added();
      part, buf := StrSep(buf.value);
      assert was + ([part] + SplitRest(buf)) == (was + [part]) + SplitRest(buf);
      ok := builder.AddStr(part);
      assert ok;
    }
    assert builder.Added() + [] == builder.Added();
    key := builder.Build();
  }

  // ----- printing -----

  function SumOfLengths(parts: seq<string>): nat {
    if parts == [] then 0 else |parts[0]| + SumOfLengths(parts[1..])
  }

  /** The dots and the final NUL make one character for each part. */
  lemma {:induction false} JoinedLength(parts: seq<string>)
    requires parts != []
    ensures |Joined(parts)| + 1 == SumOfLengths(parts) + |parts|
  {
    if |parts| == 1 {
      assert parts[1..] == [];
    } else {
      JoinedLength(parts[1..]);
    }
  }

  /** `strcpy` of a part to a place in the buffer: its characters and a NUL. */
  method StrCpy(buf: array<char>, at: nat, s: string)
    requires at + |s| < buf.Length
    modifies buf
    ensures buf[..] == old(buf[..at]) + s + ['\0'] + old(buf[at + |s| + 1..])
  {
    var i := 0;
    while i < |s|
      invariant i <= |s|
      invariant forall k :: 0 <= k < buf.Length ==> buf[k] == if at <= k < at + i then s[k - at] else old(buf[k])
    {
      buf[at + i] := s[i];
      i := i + 1;
    }
    buf[at + |s|] := '\0';
  }

  /** The parts printed so far, with a dot before each but the first. */
  function Printed(parts: seq<string>, n: nat): string
    requires n <= |parts|
  {
    if n == 0 then [] else Printed(parts, n - 1) + (if n == 1 then [] else [DOT]) + parts[n - 1]
  }

  lemma PrintedOne(parts: seq<string>)
    requires parts != []
    ensures Printed(parts, 1) == parts[0]
  {
    assert Printed(parts, 1) == [] + [] + parts[0];
  }

  lemma PrintedStep(parts: seq<string>, n: nat)
    requires 1 < n <= |parts|
    ensures Printed(parts, n) == Printed(parts, n - 1) + ([DOT] + parts[n - 1])
  {
    assert Printed(parts, n - 1) + [DOT] + parts[n - 1] == Printed(parts, n - 1) + ([DOT] + parts[n - 1]);
  }

  lemma {:induction false} PrintedFromFirst(parts: seq<string>, n: nat)
    requires 1 <= n < |parts|
    ensures Printed(parts, n + 1) == parts[0] + [DOT] + Printed(parts[1..], n)
  {
    hide Printed;
    PrintedStep(parts, n + 1);
    if n == 1 {
      PrintedOne(parts);
      PrintedOne(parts[1..]);
    } else {
      PrintedFromFirst(parts, n - 1);
      PrintedStep(parts[1..], n);
      var last := [DOT] + parts[n];
      assert (parts[0] + [DOT] + Printed(parts[1..], n - 1)) + last == parts[0] + [DOT] + (Printed(parts[1..], n - 1) + last);
    }
  }

  lemma {:induction false} PrintedIsJoined(parts: seq<string>)
    requires parts != []
    ensures Printed(parts, |parts|) == Joined(parts)
    decreases |parts|
  {
    hide Printed;
    if |parts| == 1 {
      PrintedOne(parts);
    } else {
      PrintedIsJoined(parts[1..]);
      PrintedFromFirst(parts, |parts| - 1);
    }
  }

  lemma {:induction false} PrintedLength(parts: seq<string>, n: nat)
    requires n <= |parts|
    ensures |Printed(parts, n)| + (if n == 0 then 0 else 1) == SumOfLengths(parts[..n]) + n
  {
    if n == 0 {
    } else {
      PrintedLength(parts, n - 1);
      SumOfLast(parts[..n - 1], parts[n - 1]);
      assert parts[..n] == parts[..n - 1] + [parts[n - 1]];
    }
  }

  lemma {:induction false} SumOfLast(parts: seq<string>, p: string)
    ensures SumOfLengths(parts + [p]) == SumOfLengths(parts) + |p|
  {
    if parts == [] {
    } else {
      assert (parts + [p])[0] == parts[0] && (parts + [p])[1..] == parts[1..] + [p];
      SumOfLast(parts[1..], p);
    }
  }

  /** Parts are strings without NUL. */
  predicate Strings(parts: seq<string>) {
    forall i :: 0 <= i < |parts| ==> '\0' !in parts[i]
  }

  /** `cb_binding_key_str`, for keys with parts: the buffer that the sizes add up to is filled exactly, NUL included. */
  method Print(parts: seq<string>) returns (out: array<char>)
    requires parts != []
    ensures fresh(out) && out.Length == SumOfLengths(parts) + |parts|
    ensures out[..] == Joined(parts) + ['\0']
  {
    hide Printed, SumOfLengths, Joined;
    var size := 0;
    var i := 0;
    SumOfNone();
    assert parts[..0] == [];
    while i < |parts|
      invariant i <= |parts| && size == SumOfLengths(parts[..i])
    {
      SumOfLast(parts[..i], parts[i]);
      assert parts[..i + 1] == parts[..i] + [parts[i]];
      size := size + |parts[i]|;
      i := i + 1;
    }
    assert parts[..i] == parts;
    size := size + |parts|;
    out := new char[size](_ => '\0');
    var p := 0;
    i := 0;
    PrintedNone(parts);
    while i < |parts|
      invariant i <= |parts| && p == |Printed(parts, i)| < out.Length
      invariant out[..p] == Printed(parts, i)
      invariant i > 0 ==> out[p] == '\0'
    {
      PrintedFits(parts, i);
      var part := parts[i];
      ghost var before := Printed(parts, i);
      if i > 0 {
        out[p] := DOT;
        p := p + 1;
      }
      assert out[..p] == before + if i == 0 then [] else [DOT];
      StrCpy(out, p, part);
      p := p + |part|;
      i := i + 1;
      PrintedNext(parts, i - 1);
      assert out[..p] == Printed(parts, i);
    }
    PrintedIsJoined(parts);
    JoinedLength(parts);
  }

  lemma SumOfNone()
    ensures SumOfLengths([]) == 0
  {
  }

  lemma PrintedNone(parts: seq<string>)
    ensures Printed(parts, 0) == []
  {
  }

  lemma PrintedNext(parts: seq<string>, i: nat)
    requires i < |parts|
    ensures Printed(parts, i + 1) == (Printed(parts, i) + if i == 0 then [] else [DOT]) + parts[i]
  {
  }

  /** The next part and its NUL are within the buffer. */
  lemma PrintedFits(parts: seq<string>, i: nat)
    requires i < |parts|
    ensures |Printed(parts, i)| + (if i == 0 then 0 else 1) + |parts[i]| < SumOfLengths(parts) + |parts|
  {
    hide Printed, SumOfLengths;
    PrintedLength(parts, i);
    SumOfLast(parts[..i], parts[i]);
    assert parts[..i + 1] == parts[..i] + [parts[i]];
    SumOfTail(parts, i + 1);
  }

  lemma {:induction false} SumOfTail(parts: seq<string>, n: nat)
    requires n <= |parts|
    ensures SumOfLengths(parts[..n]) <= SumOfLengths(parts)
    decreases |parts| - n
  {
    if n == |parts| {
      assert parts[..n] == parts;
    } else {
      SumOfLast(parts[..n], parts[n]);
      assert parts[..n + 1] == parts[..n] + [parts[n]];
      SumOfTail(parts, n + 1);
    }
  }

  /** The string that a NUL-terminated buffer holds. */
  function CString(buf: seq<char>): (s: string)
    requires '\0' in buf
    ensures s <= buf && '\0' !in s && buf[|s|] == '\0'
  {
    if buf[0] == '\0' then [] else [buf[0]] + CString(buf[1..])
  }

  /** `cb_binding_key_str`. */
  method Str(key: Key) returns (out: string)
    requires key.Some? ==> key.value != [] && Strings(key.value)
    ensures out == match key case None => "#" case Some(parts) => Joined(parts)
  {
    if key.None? {
      return "#";
    }
    var buf := Print(key.value);
    JoinedHasNoNul(key.value);
    CStringOf(Joined(key.value));
    var chars := buf[..];
    assert chars[|Joined(key.value)|] == '\0';
    out := CString(chars);
  }

  lemma {:induction false} JoinedHasNoNul(parts: seq<string>)
    requires Strings(parts)
    ensures '\0' !in Joined(parts)
  {
    if |parts| <= 1 {
    } else {
      JoinedHasNoNul(parts[1..]);
    }
  }

  lemma {:induction false} CStringOf(s: string)
    requires '\0' !in s
    ensures CString(s + ['\0']) == s
  {
    var buf := s + ['\0'];
    assert buf[|s|] == '\0';
    assert forall i :: 0 <= i < |s| ==> buf[i] == s[i] && s[i] in s;
    assert CString(buf) <= buf;
  }
}
