/** Hardware IDs on Windows: the check of a REG_MULTI_SZ buffer, its capitalisation in
    place and the walk over its strings (src/windows/device_windows.c). */
module HardwareIds {
  import opened Base

  /** The numbers in a hardware ID of the form that is looked for. */
  datatype Numbers = Numbers(vendorId: nat, productId: nat, revision: nat)

  // ---- Capitalisation ----

  function Upper(c: char): char {
    if 'a' <= c <= 'z' then c - 'a' + 'A' else c
  }

  /** One character is the other, or the capital of the other: the letter at the same place
      of the alphabet. */
  predicate IsCapitalOf(c: char, d: char) {
    if c in LOWER_CASE then exists i | 0 <= i < 26 :: LOWER_CASE[i] == c && UPPER_CASE[i] == d else d == c
  }

  const LOWER_CASE := "abcdefghijklmnopqrstuvwxyz"
  const UPPER_CASE := "ABCDEFGHIJKLMNOPQRSTUVWXYZ"

  lemma UpperIsCapital(c: char)
    ensures IsCapitalOf(c, Upper(c))
  {
    if 'a' <= c <= 'z' {
      var i := c as int - 'a' as int;
      assert LOWER_CASE[i] == c && UPPER_CASE[i] == Upper(c);
    }
  }

  function UpperAll(s: seq<char>): (r: seq<char>)
    ensures |r| == |s|
  {
    seq(|s|, i requires 0 <= i < |s| => Upper(s[i]))
  }

  /** The check of device_get_hardware_ids: the buffer ends with two NULs. */
  predicate IsTerminated(bytes: seq<char>) {
    |bytes| >= 2 && bytes[|bytes| - 2] == NUL && bytes[|bytes| - 1] == NUL
  }

  /** The end of device_get_hardware_ids, on the buffer that the registry has filled. */
  method CheckAndCapitalize(ids: array<char>) returns (ok: bool)
    modifies ids
    ensures ok == IsTerminated(old(ids[..]))
    ensures ids[..] == if ok then UpperAll(old(ids[..])) else old(ids[..])
    ensures ok ==> forall k | 0 <= k < ids.Length :: IsCapitalOf(old(ids[k]), ids[k])
  {
    if ids.Length < 2 || ids[ids.Length - 2] != NUL || ids[ids.Length - 1] != NUL {
      return false;
    }
    var i := 0;
    while i < ids.Length
      invariant 0 <= i <= ids.Length
      invariant forall k | 0 <= k < ids.Length :: ids[k] == if k < i then Upper(old(ids[k])) else old(ids[k])
    {
      if 'a' <= ids[i] <= 'z' {
        ids[i] := ids[i] - 'a' + 'A';
      }
      i := i + 1;
    }
    ok := true;
    forall k | 0 <= k < ids.Length ensures IsCapitalOf(old(ids[k]), ids[k]) {
      UpperIsCapital(old(ids[k]));
    }
  }

  /** Capitalising a buffer keeps its terminators and capitalises its strings one by one. */
  lemma CapitalizationKeepsStructure(bytes: seq<char>)
    ensures IsTerminated(bytes) <==> IsTerminated(UpperAll(bytes))
    ensures Strings(UpperAll(bytes)) == UpperStrings(Strings(bytes))
  {
    StringsOfUpper(bytes, 0);
  }

  lemma {:induction false} StringsOfUpper(bytes: seq<char>, at: nat)
    requires at <= |bytes|
    ensures StringsFrom(UpperAll(bytes), at) == UpperStrings(StringsFrom(bytes, at))
    decreases |bytes| - at
  {
    if at < |bytes| && bytes[at] != NUL {
      var end := End(bytes, at);
      EndOfUpper(bytes, at);
      assert UpperAll(bytes)[at..end] == UpperAll(bytes[at..end]);
      UpperOfMany(bytes[at..end], StringsAfter(bytes, end));
      if end < |bytes| {
        StringsOfUpper(bytes, end + 1);
      }
    }
  }

  lemma UpperOfMany(first: seq<char>, rest: seq<seq<char>>)
    ensures UpperStrings([first] + rest) == [UpperAll(first)] + UpperStrings(rest)
  {
    assert ([first] + rest)[1..] == rest;
  }

  lemma {:induction false} EndOfUpper(bytes: seq<char>, at: nat)
    requires at <= |bytes|
    ensures End(UpperAll(bytes), at) == End(bytes, at)
    decreases |bytes| - at
  {
    if at < |bytes| && bytes[at] != NUL {
      EndOfUpper(bytes, at + 1);
    }
  }

  // ---- The strings of a REG_MULTI_SZ ----

  /** Where the string at a place ends. */
  function End(bytes: seq<char>, at: nat): (e: nat)
    requires at <= |bytes|
    ensures at <= e <= |bytes|
    ensures forall i | at <= i < e :: bytes[i] != NUL
    ensures e < |bytes| ==> bytes[e] == NUL
    decreases |bytes| - at
  {
    if at == |bytes| || bytes[at] == NUL then at else End(bytes, at + 1)
  }

  /** The strings from a place on, up to the first empty one. */
  function StringsFrom(bytes: seq<char>, at: nat): seq<seq<char>>
    requires at <= |bytes|
    decreases |bytes| - at, 2
  {
    if at == |bytes| || bytes[at] == NUL then []
    else
      [bytes[at..End(bytes, at)]] + StringsAfter(bytes, End(bytes, at))
  }

  /** The strings after the end of one. */
  function StringsAfter(bytes: seq<char>, end: nat): seq<seq<char>>
    requires end <= |bytes|
    decreases |bytes| - end, 1
  {
    if end < |bytes| then StringsFrom(bytes, end + 1) else []
  }

  function Strings(bytes: seq<char>): seq<seq<char>> {
    StringsFrom(bytes, 0)
  }

  /** Strings one after the other, each followed by a NUL. */
  function Flat(strings: seq<seq<char>>): seq<char> {
    if strings == [] then [] else strings[0] + [NUL] + Flat(strings[1..])
  }

  predicate AreStrings(strings: seq<seq<char>>) {
    forall s | s in strings :: s != [] && NUL !in s
  }

  /** A text is in a buffer at a place. */
  predicate IsAt(bytes: seq<char>, at: nat, text: seq<char>) {
    at + |text| <= |bytes| && bytes[at..at + |text|] == text
  }

  /** The strings of a buffer that ends with two NULs, exactly: none of them is empty or has
      a NUL in it, and with a NUL after each and one more they start the buffer. */
  lemma StringsExactly(bytes: seq<char>, strings: seq<seq<char>>)
    requires IsTerminated(bytes)
    ensures strings == Strings(bytes) <==> AreStrings(strings) && IsAt(bytes, 0, Flat(strings) + [NUL])
  {
    StringsAreThere(bytes, 0);
    if AreStrings(strings) && IsAt(bytes, 0, Flat(strings) + [NUL]) {
      OneListOfStrings(bytes, 0, strings);
    }
  }

  lemma {:induction false} StringsAreThere(bytes: seq<char>, at: nat)
    requires IsTerminated(bytes) && at < |bytes|
    ensures var strings := StringsFrom(bytes, at);
      AreStrings(strings) && IsAt(bytes, at, Flat(strings) + [NUL])
    decreases |bytes| - at
  {
    if bytes[at] == NUL {
      NoStrings(bytes, at);
    } else {
      var end := End(bytes, at);
      StringsAreThere(bytes, end + 1);
      StringInFront(bytes, at, StringsFrom(bytes, end + 1));
      FirstString(bytes, at);
    }
  }

  lemma NoStrings(bytes: seq<char>, at: nat)
    requires at < |bytes| && bytes[at] == NUL
    ensures IsAt(bytes, at, Flat([]) + [NUL])
  {
    assert Flat([]) + [NUL] == [NUL] == bytes[at..at + 1];
  }

  lemma FirstString(bytes: seq<char>, at: nat)
    requires at < |bytes| && bytes[at] != NUL && End(bytes, at) < |bytes|
    ensures StringsFrom(bytes, at) == [bytes[at..End(bytes, at)]] + StringsFrom(bytes, End(bytes, at) + 1)
  {}

  lemma StringInFront(bytes: seq<char>, at: nat, rest: seq<seq<char>>)
    requires at < |bytes| && bytes[at] != NUL && End(bytes, at) < |bytes|
    requires AreStrings(rest) && IsAt(bytes, End(bytes, at) + 1, Flat(rest) + [NUL])
    ensures var strings := [bytes[at..End(bytes, at)]] + rest;
      AreStrings(strings) && IsAt(bytes, at, Flat(strings) + [NUL])
  {
    var end := End(bytes, at);
    var first := bytes[at..end];
    assert NUL !in first;
    FlatOfMany(first, rest);
    JoinAt(bytes, end, [NUL], Flat(rest) + [NUL]);
    JoinAt(bytes, at, first, [NUL] + (Flat(rest) + [NUL]));
  }

  lemma {:induction false} OneListOfStrings(bytes: seq<char>, at: nat, strings: seq<seq<char>>)
    requires AreStrings(strings) && IsAt(bytes, at, Flat(strings) + [NUL])
    ensures strings == StringsFrom(bytes, at)
    decreases |strings|
  {
    if strings == [] {
      assert Flat(strings) + [NUL] == [NUL];
      assert bytes[at] == bytes[at..at + 1][0];
    } else {
      var first, rest := strings[0], strings[1..];
      assert strings == [first] + rest;
      TakeFirst(bytes, at, first, rest);
      OneListOfStrings(bytes, at + |first| + 1, rest);
      FirstString(bytes, at);
    }
  }

  lemma TakeFirst(bytes: seq<char>, at: nat, first: seq<char>, rest: seq<seq<char>>)
    requires AreStrings([first] + rest) && IsAt(bytes, at, Flat([first] + rest) + [NUL])
    ensures AreStrings(rest) && IsAt(bytes, at + |first| + 1, Flat(rest) + [NUL])
    ensures bytes[at] != NUL && End(bytes, at) == at + |first| && bytes[at..at + |first|] == first
  {
    FlatOfMany(first, rest);
    JoinAt(bytes, at, first, [NUL] + (Flat(rest) + [NUL]));
    JoinAt(bytes, at + |first|, [NUL], Flat(rest) + [NUL]);
    EndOfFirst(bytes, at, first);
  }

  lemma FlatOfMany(first: seq<char>, rest: seq<seq<char>>)
    ensures Flat([first] + rest) + [NUL] == first + ([NUL] + (Flat(rest) + [NUL]))
    ensures AreStrings([first] + rest) <==> first != [] && NUL !in first && AreStrings(rest)
  {
    var all := [first] + rest;
    assert all[1..] == rest;
    assert first in all && forall s | s in rest :: s in all;
  }

  lemma JoinAt(bytes: seq<char>, at: nat, a: seq<char>, b: seq<char>)
    ensures IsAt(bytes, at, a + b) <==> IsAt(bytes, at, a) && IsAt(bytes, at + |a|, b)
  {
    if at + |a| + |b| <= |bytes| {
      var all, left, right := bytes[at..at + |a + b|], bytes[at..at + |a|], bytes[at + |a|..at + |a| + |b|];
      assert all == left + right;
      assert all[..|a|] == left && all[|a|..] == right;
      assert (a + b)[..|a|] == a && (a + b)[|a|..] == b;
    }
  }

  lemma EndOfFirst(bytes: seq<char>, at: nat, first: seq<char>)
    requires first != [] && NUL !in first && IsAt(bytes, at, first) && IsAt(bytes, at + |first|, [NUL])
    ensures bytes[at] != NUL && End(bytes, at) == at + |first| && bytes[at..at + |first|] == first
  {
    var end := at + |first|;
    assert bytes[end] == bytes[end..end + 1][0] == NUL;
    forall i | at <= i < end ensures bytes[i] != NUL {
      assert bytes[i] == bytes[at..end][i - at] == first[i - at];
    }
  }

  function UpperStrings(strings: seq<seq<char>>): seq<seq<char>> {
    if strings == [] then [] else [UpperAll(strings[0])] + UpperStrings(strings[1..])
  }

  /** The numbers of the first string that has the right form. */
  function FirstParsed(strings: seq<seq<char>>, parse: seq<char> -> Option<Numbers>): Option<Numbers> {
    if strings == [] then None
    else if parse(strings[0]).Some? then parse(strings[0])
    else FirstParsed(strings[1..], parse)
  }

  lemma {:induction false} FirstParsedIsFirst(strings: seq<seq<char>>, parse: seq<char> -> Option<Numbers>)
    ensures var r := FirstParsed(strings, parse);
      if r.None? then forall s | s in strings :: parse(s).None?
      else exists i | 0 <= i < |strings| ::
        parse(strings[i]) == r && forall j | 0 <= j < i :: parse(strings[j]).None?
  {
    if strings != [] {
      if parse(strings[0]).Some? {
        assert parse(strings[0]) == FirstParsed(strings, parse);
      } else {
        FirstParsedIsFirst(strings[1..], parse);
        assert strings == [strings[0]] + strings[1..];
        if FirstParsed(strings, parse).Some? {
          var i :| 0 <= i < |strings[1..]| && parse(strings[1..][i]) == FirstParsed(strings[1..], parse)
            && forall j | 0 <= j < i :: parse(strings[1..][j]).None?;
          assert parse(strings[i + 1]) == FirstParsed(strings, parse);
          forall j | 0 <= j < i + 1 ensures parse(strings[j]).None? {
            assert j > 0 ==> strings[j] == strings[1..][j - 1];
          }
        }
      }
    }
  }

  /** libusbp_device, as far as the walk fills it. */
  class Device {
    var vendorId: nat
    var productId: nat
    var revision: nat

    /** device_take_info_from_hardware_ids.  The pointer never leaves the buffer, because
        the buffer ends with two NULs. */
    method TakeInfo(ids: array<char>, parse: seq<char> -> Option<Numbers>) returns (ok: bool)
      requires IsTerminated(ids[..])
      modifies this
      ensures var r := FirstParsed(Strings(ids[..]), parse);
        && ok == r.Some?
        && Numbers(vendorId, productId, revision) == if ok then r.value else Numbers(0, 0, 0)
    {
      vendorId, productId, revision := 0, 0, 0;
      var at := 0;
      while ids[at] != NUL
        invariant 0 <= at < ids.Length && IsTerminated(ids[..])
        invariant FirstParsed(Strings(ids[..]), parse) == FirstParsed(StringsFrom(ids[..], at), parse)
        invariant vendorId == productId == revision == 0
        decreases ids.Length - at
      {
        var parsed, next := ParseAt(ids, at, parse);
        if parsed.Some? {
          vendorId, productId, revision := parsed.value.vendorId, parsed.value.productId, parsed.value.revision;
          return true;
        }
        at := next;
      }
      ok := false;
    }
  }

  /** The string at a place, and the place after it. */
  method ParseAt(ids: array<char>, at: nat, parse: seq<char> -> Option<Numbers>)
    returns (parsed: Option<Numbers>, next: nat)
    requires IsTerminated(ids[..]) && at < ids.Length && ids[at] != NUL
    ensures at < next < ids.Length
    ensures FirstParsed(StringsFrom(ids[..], at), parse) ==
      if parsed.Some? then parsed else FirstParsed(StringsFrom(ids[..], next), parse)
  {
    var n := Strlen(ids, at);
    assert ids[at..at + n] == ids[..][at..at + n];
    FirstOfMany(ids[at..at + n], StringsAfter(ids[..], at + n), parse);
    parsed, next := parse(ids[at..at + n]), at + n + 1;
  }

  lemma FirstOfMany(first: seq<char>, rest: seq<seq<char>>, parse: seq<char> -> Option<Numbers>)
    ensures FirstParsed([first] + rest, parse) == if parse(first).Some? then parse(first) else FirstParsed(rest, parse)
  {
    assert ([first] + rest)[1..] == rest;
  }

  /** strlen at a place where a string starts; the last byte but one ends it at the latest. */
  method Strlen(ids: array<char>, at: nat) returns (n: nat)
    requires IsTerminated(ids[..]) && at < ids.Length && ids[at] != NUL
    ensures at + n == End(ids[..], at) < ids.Length - 1
  {
    n := 0;
    while ids[at + n] != NUL
      invariant at + n <= ids.Length - 2
      invariant End(ids[..], at) == End(ids[..], at + n)
      decreases ids.Length - n
    {
      n := n + 1;
    }
  }
}
