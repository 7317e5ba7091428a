/**
 ParamPackage: a string map printed as key:value pairs joined by commas, with the three special characters
 escaped in three passes, and read back by splitting and unescaping in three passes.
 */
module ParamPackage {
  import opened Sequences

  const KEY_VALUE_SEPARATOR: char := ':'
  const PARAM_SEPARATOR: char := ','
  const ESCAPE_CHARACTER: char := '$'
  const KEY_VALUE_SEPARATOR_ESCAPE: string := "$0"
  const PARAM_SEPARATOR_ESCAPE: string := "$1"
  const ESCAPE_CHARACTER_ESCAPE: string := "$2"
  const EMPTY_PLACEHOLDER: string := "[empty]"

  // ---------------------------------------------------------------------------------------------
  // ReplaceAll
  // ---------------------------------------------------------------------------------------------

  /** Every occurrence of src, left to right and without overlap, becomes dest. */
  function Replaced(s: string, src: string, dest: string): string
    requires src != []
    decreases |s|
  {
    if s == [] then []
    else if src <= s then dest + Replaced(s[|src|..], src, dest)
    else [s[0]] + Replaced(s[1..], src, dest)
  }

  lemma {:induction false} ReplacedFrom(s: string, src: string, dest: string, k: nat)
    requires src != [] && k <= |s| && (forall i :: 0 <= i < k ==> !(src <= s[i..]))
    ensures Replaced(s, src, dest) == s[..k] + Replaced(s[k..], src, dest)
  {
    if k == 0 {
      assert s[..0] == [] && s[0..] == s;
    } else {
      assert s[0..] == s;
      assert Replaced(s, src, dest) == [s[0]] + Replaced(s[1..], src, dest);
      hide Replaced;
      forall i | 0 <= i < k - 1 ensures !(src <= s[1..][i..]) { assert s[1..][i..] == s[i + 1..]; }
      ReplacedFrom(s[1..], src, dest, k - 1);
      assert s[1..][k - 1..] == s[k..] && [s[0]] + s[1..][..k - 1] == s[..k];
      Assoc([s[0]], s[1..][..k - 1], Replaced(s[k..], src, dest));
    }
  }

  lemma {:induction false} ReplacedBySelf(s: string, src: string)
    requires src != []
    ensures Replaced(s, src, src) == s
    decreases |s|
  {
    if s == [] {
    } else if src <= s {
      assert src + s[|src|..] == s;
      ReplacedBySelf(s[|src|..], src);
    } else {
      assert [s[0]] + s[1..] == s;
      ReplacedBySelf(s[1..], src);
    }
  }

  /** result.find(src, pos): the first occurrence at or after pos, or the length. */
  method Find(s: string, src: string, pos: nat) returns (r: nat)
    requires src != [] && pos <= |s|
    ensures pos <= r <= |s|
    ensures forall i :: pos <= i < r ==> !(src <= s[i..])
    ensures r < |s| ==> src <= s[r..]
  {
    r := pos;
    while r < |s| && !(src <= s[r..])
      invariant pos <= r <= |s|
      invariant forall i :: pos <= i < r ==> !(src <= s[i..])
    {
      r := r + 1;
    }
  }

  method ReplaceAll(s: string, src: string, dest: string) returns (result: string)
    requires src != []
    ensures result == Replaced(s, src, dest)
  {
    result := s;
    if src == dest {
      ReplacedBySelf(s, src);
      return;
    }
    var pos: nat := 0;
    assert result[..0] == [] && result[0..] == result;
    while true
      invariant pos <= |result|
      invariant Replaced(s, src, dest) == result[..pos] + Replaced(result[pos..], src, dest)
      decreases |result| - pos
    {
      var at := Find(result, src, pos);
      FindStep(result, src, dest, pos, at);
      hide Replaced;
      if at == |result| {
        break;
      }
      result := result[..at] + dest + result[at + |src|..];
      pos := at + |dest|;
    }
  }

  lemma Spliced(s: string, src: string, dest: string, at: nat)
    requires at < |s| && src <= s[at..]
    ensures var s', p := s[..at] + dest + s[at + |src|..], at + |dest|;
            s'[..p] == s[..at] + dest && s'[p..] == s[at..][|src|..]
  {
  }

  /** Up to the first occurrence nothing is replaced. */
  lemma UpTo(s: string, src: string, dest: string, pos: nat, at: nat)
    requires src != [] && pos <= at <= |s| && forall i :: pos <= i < at ==> !(src <= s[i..])
    ensures s[..pos] + Replaced(s[pos..], src, dest) == s[..at] + Replaced(s[at..], src, dest)
  {
    hide Replaced;
    var rest := s[pos..];
    forall i | 0 <= i < at - pos ensures !(src <= rest[i..]) { assert rest[i..] == s[pos + i..]; }
    ReplacedFrom(rest, src, dest, at - pos);
    assert rest[at - pos..] == s[at..] && s[..pos] + rest[..at - pos] == s[..at];
    Assoc(s[..pos], rest[..at - pos], Replaced(s[at..], src, dest));
  }

  /** One round of the loop: what lies before the occurrence is final, and so is its replacement. */
  lemma FindStep(s: string, src: string, dest: string, pos: nat, at: nat)
    requires src != [] && pos <= at <= |s|
    requires (forall i :: pos <= i < at ==> !(src <= s[i..])) && (at < |s| ==> src <= s[at..])
    ensures at == |s| ==> s[..pos] + Replaced(s[pos..], src, dest) == s
    ensures at < |s| ==>
              && at + |src| <= |s|
              && (var s' := s[..at] + dest + s[at + |src|..];
                  var p := at + |dest|;
                  s[..pos] + Replaced(s[pos..], src, dest) == s'[..p] + Replaced(s'[p..], src, dest))
  {
    UpTo(s, src, dest, pos, at);
    assert at < |s| ==> Replaced(s[at..], src, dest) == dest + Replaced(s[at..][|src|..], src, dest);
    assert Replaced([], src, dest) == [];
    hide Replaced;
    if at < |s| {
      Spliced(s, src, dest, at);
      Assoc(s[..at], dest, Replaced(s[at..][|src|..], src, dest));
    } else {
      assert s[at..] == [] && s[..at] + [] == s;
    }
  }

  // ---------------------------------------------------------------------------------------------
  // SplitString
  // ---------------------------------------------------------------------------------------------

  /** The pieces between delimiters; as with getline, an empty piece after the last delimiter does not count. */
  function Split(s: string, delim: char): seq<string> {
    if s == [] then []
    else
      var i := IndexOf(s, delim);
      if i == |s| then [s] else [s[..i]] + Split(s[i + 1..], delim)
  }

  function IndexOf(s: string, c: char): (r: nat)
    ensures r <= |s| && c !in s[..r] && (r < |s| ==> s[r] == c)
  {
    if s == [] || s[0] == c then 0 else 1 + IndexOf(s[1..], c)
  }

  lemma {:induction false} IndexIs(s: string, c: char, k: nat)
    requires k <= |s| && c !in s[..k] && (k < |s| ==> s[k] == c)
    ensures IndexOf(s, c) == k
  {
    if k > 0 {
      assert s[..k][0] == s[0] && s[..k][1..] == s[1..][..k - 1];
      IndexIs(s[1..], c, k - 1);
    }
  }

  /** One getline: the piece from pos up to the next delimiter at i, or to the end. */
  lemma SplitPiece(s: string, delim: char, pos: nat, i: nat)
    requires pos <= i <= |s| && pos < |s| && (forall j :: pos <= j < i ==> s[j] != delim) && (i < |s| ==> s[i] == delim)
    ensures Split(s[pos..], delim) == [s[pos..i]] + (if i == |s| then [] else Split(s[i + 1..], delim))
  {
    var rest := s[pos..];
    assert rest[..i - pos] == s[pos..i];
    IndexIs(rest, delim, i - pos);
    if i == |s| { assert rest == s[pos..i]; } else { assert rest[i - pos + 1..] == s[i + 1..]; }
  }

  method FindChar(s: string, delim: char, pos: nat) returns (i: nat)
    requires pos <= |s|
    ensures pos <= i <= |s| && (forall j :: pos <= j < i ==> s[j] != delim) && (i < |s| ==> s[i] == delim)
  {
    i := pos;
    while i < |s| && s[i] != delim
      invariant pos <= i <= |s| && forall j :: pos <= j < i ==> s[j] != delim
    {
      i := i + 1;
    }
  }

  method SplitString(s: string, delim: char) returns (output: seq<string>)
    ensures output == Split(s, delim)
  {
    output := [];
    var pos: nat := 0;
    assert s[0..] == s;
    while pos < |s|
      invariant pos <= |s|
      invariant Split(s, delim) == output + if pos == |s| then [] else Split(s[pos..], delim)
    {
      var i := FindChar(s, delim, pos);
      SplitPiece(s, delim, pos, i);
      assert s[|s|..] == [] && Split([], delim) == [];
      hide Split;
      if i < |s| {
        Assoc(output, [s[pos..i]], Split(s[i + 1..], delim));
      } else {
        assert s[i..] == [] && output + ([s[pos..i]] + []) == output + [s[pos..i]];
      }
      output := output + [s[pos..i]];
      pos := if i == |s| then i else i + 1;
    }
  }

  /** A piece without delimiter in front is split off. */
  lemma SplitFirst(p: string, rest: string, delim: char)
    requires delim !in p
    ensures Split(p + [delim] + rest, delim) == [p] + Split(rest, delim)
  {
    var s := p + [delim] + rest;
    assert s[..|p|] == p && s[|p| + 1..] == rest;
    IndexIs(s, delim, |p|);
  }

  lemma SplitLast(p: string, delim: char)
    requires delim !in p
    ensures Split(p, delim) == if p == [] then [] else [p]
  {
    assert p[..|p|] == p;
    IndexIs(p, delim, |p|);
  }

  // ---------------------------------------------------------------------------------------------
  // Escaping
  // ---------------------------------------------------------------------------------------------

  /** A character after the first n escaping passes. */
  function EncodedChar(c: char, n: nat): string {
    if c == ESCAPE_CHARACTER && n >= 1 then ESCAPE_CHARACTER_ESCAPE
    else if c == PARAM_SEPARATOR && n >= 2 then PARAM_SEPARATOR_ESCAPE
    else if c == KEY_VALUE_SEPARATOR && n >= 3 then KEY_VALUE_SEPARATOR_ESCAPE
    else [c]
  }

  function Encoded(s: string, n: nat): string {
    if s == [] then [] else EncodedChar(s[0], n) + Encoded(s[1..], n)
  }

  /** The three passes of Serialize. */
  function Escape(s: string): string {
    Replaced(Replaced(Replaced(s, [ESCAPE_CHARACTER], ESCAPE_CHARACTER_ESCAPE),
                      [PARAM_SEPARATOR], PARAM_SEPARATOR_ESCAPE),
             [KEY_VALUE_SEPARATOR], KEY_VALUE_SEPARATOR_ESCAPE)
  }

  /** The three passes of the parsing constructor. */
  function Unescape(s: string): string {
    Replaced(Replaced(Replaced(s, KEY_VALUE_SEPARATOR_ESCAPE, [KEY_VALUE_SEPARATOR]),
                      PARAM_SEPARATOR_ESCAPE, [PARAM_SEPARATOR]),
             ESCAPE_CHARACTER_ESCAPE, [ESCAPE_CHARACTER])
  }

  /** The character the n-th pass is about, and what it becomes. */
  function PassChar(n: nat): char {
    if n == 1 then ESCAPE_CHARACTER else if n == 2 then PARAM_SEPARATOR else KEY_VALUE_SEPARATOR
  }

  lemma {:induction false} EscapePass(s: string, n: nat)
    requires 1 <= n <= 3
    ensures Replaced(Encoded(s, n - 1), [PassChar(n)], EncodedChar(PassChar(n), n)) == Encoded(s, n)
  {
    if s != [] {
      EscapePass(s[1..], n);
      StepOver(EncodedChar(s[0], n - 1), Encoded(s[1..], n - 1), [PassChar(n)], EncodedChar(PassChar(n), n));
    }
  }

  lemma {:induction false} UnescapePass(s: string, n: nat)
    requires 1 <= n <= 3
    ensures Replaced(Encoded(s, n), EncodedChar(PassChar(n), n), [PassChar(n)]) == Encoded(s, n - 1)
  {
    if s != [] {
      UnescapePass(s[1..], n);
      StepOver(EncodedChar(s[0], n), Encoded(s[1..], n), EncodedChar(PassChar(n), n), [PassChar(n)]);
    }
  }

  /** A replacement passes over one encoded character at a time. */
  lemma StepOver(x: string, rest: string, src: string, dest: string)
    requires 1 <= |x| <= 2 && 1 <= |src| <= 2
    requires |x| == 1 ==> x == src || x[0] != src[0]
    requires |x| == 2 ==> x == src || (src != [x[0]] && src[0] != x[1] && (src[0] == x[0] ==> |src| == 2 && src[1] != x[1]))
    ensures Replaced(x + rest, src, dest) == (if x == src then dest else x) + Replaced(rest, src, dest)
  {
    var s := x + rest;
    if x == src {
      assert s[|src|..] == rest;
    } else if |x| == 1 {
      assert s[1..] == rest && !(src <= s);
    } else {
      assert !(src <= s);
      assert s[1..] == [x[1]] + rest && !(src <= s[1..]) && s[1..][1..] == rest;
      assert [x[0]] + ([x[1]] + Replaced(rest, src, dest)) == x + Replaced(rest, src, dest);
    }
  }

  /** Three escaping passes amount to encoding every character by itself. */
  lemma EscapeEncodes(s: string)
    ensures Escape(s) == Encoded(s, 3)
  {
    EncodedZero(s);
    EscapePass(s, 1);
    EscapePass(s, 2);
    EscapePass(s, 3);
  }

  lemma {:induction false} EncodedZero(s: string)
    ensures Encoded(s, 0) == s
  {
    if s != [] { EncodedZero(s[1..]); }
  }

  /** Unescaping inverts escaping on every string. */
  lemma UnescapeInverts(s: string)
    ensures Unescape(Escape(s)) == s
  {
    EscapeEncodes(s);
    EncodedZero(s);
    UnescapePass(s, 3);
    UnescapePass(s, 2);
    UnescapePass(s, 1);
  }

  /** Escaped strings contain no separator, and only the empty string escapes to the empty string. */
  lemma {:induction false} EscapedIsClean(s: string)
    ensures PARAM_SEPARATOR !in Escape(s) && KEY_VALUE_SEPARATOR !in Escape(s)
    ensures Escape(s) == [] <==> s == []
  {
    EscapeEncodes(s);
    EncodedIsClean(s);
  }

  lemma {:induction false} EncodedIsClean(s: string)
    ensures PARAM_SEPARATOR !in Encoded(s, 3) && KEY_VALUE_SEPARATOR !in Encoded(s, 3)
    ensures Encoded(s, 3) == [] <==> s == []
  {
    if s != [] { EncodedIsClean(s[1..]); }
  }

  // ---------------------------------------------------------------------------------------------
  // Printing and parsing
  // ---------------------------------------------------------------------------------------------

  /** keys lists the map in the order an unordered_map happens to iterate. */
  ghost predicate Enumerates(keys: seq<string>, data: map<string, string>) {
    && (forall i, j :: 0 <= i < j < |keys| ==> keys[i] != keys[j])
    && (forall k :: k in keys <==> k in data)
  }

  function Pair(key: string, value: string): string {
    Escape(key) + [KEY_VALUE_SEPARATOR] + Escape(value)
  }

  /** The pairs, each followed by a separator. */
  function Chain(keys: seq<string>, data: map<string, string>): (r: string)
    requires forall k <- keys :: k in data
    ensures keys != [] ==> r != []
  {
    if keys == [] then []
    else
      assert forall k <- keys[1..] :: k in keys;
      Pair(keys[0], data[keys[0]]) + [PARAM_SEPARATOR] + Chain(keys[1..], data)
  }

  function Printed(keys: seq<string>, data: map<string, string>): string
    requires forall k <- keys :: k in data
  {
    if keys == [] then EMPTY_PLACEHOLDER else Chain(keys, data)[..|Chain(keys, data)| - 1]
  }

  /** Reading the pairs into acc; a later pair overrides an earlier one, a malformed one is skipped. */
  function Absorb(pairs: seq<string>, acc: map<string, string>): map<string, string> {
    if pairs == [] then acc
    else
      var kv := Split(pairs[0], KEY_VALUE_SEPARATOR);
      Absorb(pairs[1..], if |kv| == 2 then acc[Unescape(kv[0]) := Unescape(kv[1])] else acc)
  }

  function Parsed(s: string): map<string, string> {
    if s == EMPTY_PLACEHOLDER then map[] else Absorb(Split(s, PARAM_SEPARATOR), map[])
  }

  method EscapeInPasses(part: string) returns (r: string)
    ensures r == Escape(part)
  {
    r := ReplaceAll(part, [ESCAPE_CHARACTER], ESCAPE_CHARACTER_ESCAPE);
    r := ReplaceAll(r, [PARAM_SEPARATOR], PARAM_SEPARATOR_ESCAPE);
    r := ReplaceAll(r, [KEY_VALUE_SEPARATOR], KEY_VALUE_SEPARATOR_ESCAPE);
  }

  method UnescapeInPasses(part: string) returns (r: string)
    ensures r == Unescape(part)
  {
    r := ReplaceAll(part, KEY_VALUE_SEPARATOR_ESCAPE, [KEY_VALUE_SEPARATOR]);
    r := ReplaceAll(r, PARAM_SEPARATOR_ESCAPE, [PARAM_SEPARATOR]);
    r := ReplaceAll(r, ESCAPE_CHARACTER_ESCAPE, [ESCAPE_CHARACTER]);
  }

  method Serialize(data: map<string, string>, keys: seq<string>) returns (result: string)
    requires Enumerates(keys, data)
    ensures result == Printed(keys, data)
  {
    if keys == [] {
      return EMPTY_PLACEHOLDER;
    }
    result := [];
    assert keys[0..] == keys && [] + Chain(keys, data) == Chain(keys, data);
    for i := 0 to |keys|
      invariant Chain(keys, data) == result + Chain(keys[i..], data)
    {
      var key := EscapeInPasses(keys[i]);
      var value := EscapeInPasses(data[keys[i]]);
      assert keys[i..][0] == keys[i] && keys[i..][1..] == keys[i + 1..];
      Assoc(result, key + [KEY_VALUE_SEPARATOR] + value + [PARAM_SEPARATOR], Chain(keys[i + 1..], data));
      result := result + (key + [KEY_VALUE_SEPARATOR] + value + [PARAM_SEPARATOR]);
    }
    assert keys[|keys|..] == [];
    result := result[..|result| - 1];
  }

  method Parse(serialized: string) returns (data: map<string, string>)
    ensures data == Parsed(serialized)
  {
    data := map[];
    if serialized == EMPTY_PLACEHOLDER {
      return;
    }
    var pairs := SplitString(serialized, PARAM_SEPARATOR);
    assert pairs[0..] == pairs;
    for i := 0 to |pairs|
      invariant Absorb(pairs, map[]) == Absorb(pairs[i..], data)
    {
      var keyValue := SplitString(pairs[i], KEY_VALUE_SEPARATOR);
      assert pairs[i..][0] == pairs[i] && pairs[i..][1..] == pairs[i + 1..];
      if |keyValue| == 2 {
        var key := UnescapeInPasses(keyValue[0]);
        var value := UnescapeInPasses(keyValue[1]);
        data := data[key := value];
      }
    }
    assert pairs[|pairs|..] == [];
  }

  /** The pairs of a printed package, in order. */
  function Pairs(keys: seq<string>, data: map<string, string>): seq<string>
    requires forall k <- keys :: k in data
  {
    if keys == [] then []
    else
      assert forall k <- keys[1..] :: k in keys;
      [Pair(keys[0], data[keys[0]])] + Pairs(keys[1..], data)
  }

  lemma PairIsClean(key: string, value: string)
    ensures PARAM_SEPARATOR !in Pair(key, value) && Pair(key, value) != []
    ensures KEY_VALUE_SEPARATOR in Pair(key, value)
  {
    EscapedIsClean(key);
    EscapedIsClean(value);
    hide Escape;
    assert Pair(key, value)[|Escape(key)|] == KEY_VALUE_SEPARATOR;
  }

  /** Splitting a printed package at the separators gives back its pairs. */
  lemma {:induction false} SplitPrinted(keys: seq<string>, data: map<string, string>)
    requires keys != [] && (forall k <- keys :: k in data)
    ensures Split(Printed(keys, data), PARAM_SEPARATOR) == Pairs(keys, data)
  {
    var p := Pair(keys[0], data[keys[0]]);
    PairIsClean(keys[0], data[keys[0]]);
    assert forall k <- keys[1..] :: k in keys;
    hide Split, Pair;
    if |keys| == 1 {
      assert keys[1..] == [];
      assert Printed(keys, data) == p;
      SplitLast(p, PARAM_SEPARATOR);
    } else {
      SplitPrinted(keys[1..], data);
      assert Printed(keys, data) == p + [PARAM_SEPARATOR] + Printed(keys[1..], data);
      SplitFirst(p, Printed(keys[1..], data), PARAM_SEPARATOR);
    }
  }

  /** A pair is read back as it was, unless its value is empty; then it is malformed. */
  lemma SplitPair(key: string, value: string)
    ensures Split(Pair(key, value), KEY_VALUE_SEPARATOR)
         == if value == [] then [Escape(key)] else [Escape(key), Escape(value)]
  {
    EscapedIsClean(key);
    EscapedIsClean(value);
    hide Escape, Split;
    SplitFirst(Escape(key), Escape(value), KEY_VALUE_SEPARATOR);
    SplitLast(Escape(value), KEY_VALUE_SEPARATOR);
  }

  /** The entries of data under the listed keys whose value is not empty. */
  ghost function NonEmpty(keys: seq<string>, data: map<string, string>): map<string, string>
    requires forall k <- keys :: k in data
  {
    map k | k in keys && data[k] != [] :: data[k]
  }

  lemma NonEmptyStep(keys: seq<string>, data: map<string, string>, acc: map<string, string>)
    requires keys != [] && (forall k <- keys :: k in data)
    ensures (forall k <- keys[1..] :: k in data)
    ensures (if data[keys[0]] == [] then acc else acc[keys[0] := data[keys[0]]]) + NonEmpty(keys[1..], data)
         == acc + NonEmpty(keys, data)
  {
    assert keys == [keys[0]] + keys[1..];
  }

  lemma {:induction false} AbsorbPairs(keys: seq<string>, data: map<string, string>, acc: map<string, string>)
    requires forall k <- keys :: k in data
    ensures Absorb(Pairs(keys, data), acc) == acc + NonEmpty(keys, data)
  {
    if keys == [] {
      assert acc + NonEmpty(keys, data) == acc;
    } else {
      var k := keys[0];
      assert forall x <- keys[1..] :: x in keys;
      SplitPair(k, data[k]);
      UnescapeInverts(k);
      UnescapeInverts(data[k]);
      hide Escape, Unescape, Split, Pair, NonEmpty;
      var acc' := if data[k] == [] then acc else acc[k := data[k]];
      AbsorbPairs(keys[1..], data, acc');
      assert Pairs(keys, data)[1..] == Pairs(keys[1..], data);
      NonEmptyStep(keys, data, acc);
    }
  }

  /** A non-empty package is never printed as the placeholder for an empty one. */
  lemma NeverPlaceholder(keys: seq<string>, data: map<string, string>)
    requires keys != [] && (forall k <- keys :: k in data)
    ensures Printed(keys, data) != EMPTY_PLACEHOLDER
  {
    PairIsClean(keys[0], data[keys[0]]);
    var p := Pair(keys[0], data[keys[0]]);
    hide Pair;
    var i :| 0 <= i < |p| && p[i] == KEY_VALUE_SEPARATOR;
    assert Printed(keys, data)[i] == KEY_VALUE_SEPARATOR;
    assert KEY_VALUE_SEPARATOR !in EMPTY_PLACEHOLDER;
  }

  /** Parsing a printed package, in whatever order it was printed, returns the entries with non-empty values. */
  lemma ParsePrinted(keys: seq<string>, data: map<string, string>)
    requires Enumerates(keys, data)
    ensures Parsed(Printed(keys, data)) == map k | k in data && data[k] != [] :: data[k]
  {
    if keys != [] {
      NeverPlaceholder(keys, data);
      SplitPrinted(keys, data);
      AbsorbPairs(keys, data, map[]);
      hide Printed, Split;
      assert map[] + NonEmpty(keys, data) == map k | k in data && data[k] != [] :: data[k];
    }
  }

  /** The round trip is the identity exactly on the packages in which no value is empty; keys do not matter. */
  lemma RoundTripExactly(keys: seq<string>, data: map<string, string>)
    requires Enumerates(keys, data)
    ensures Parsed(Printed(keys, data)) == data <==> forall k <- data :: data[k] != []
  {
    ParsePrinted(keys, data);
    hide Parsed, Printed;
    var kept := map k | k in data && data[k] != [] :: data[k];
    if kept == data {
      forall k <- data ensures data[k] != [] { assert k in kept; }
    }
  }

  /** The entry that is lost when a value is empty. */
  lemma EmptyValueIsLost()
    ensures Enumerates(["a"], map["a" := ""]) && Parsed(Printed(["a"], map["a" := ""])) == map[]
  {
    ParsePrinted(["a"], map["a" := ""]);
  }

  // ---------------------------------------------------------------------------------------------
  // The text
  // ---------------------------------------------------------------------------------------------

  lemma {:induction false} EncodedConcat(a: string, b: string)
    ensures Encoded(a + b, 3) == Encoded(a, 3) + Encoded(b, 3)
  {
    if a == [] {
      assert a + b == b;
    } else {
      assert (a + b)[1..] == a[1..] + b;
      EncodedConcat(a[1..], b);
      Assoc(EncodedChar(a[0], 3), Encoded(a[1..], 3), Encoded(b, 3));
    }
  }

  /** Escaping goes character by character, and these are the characters it changes. */
  lemma EscapeText(a: string, b: string, c: char)
    ensures Escape(a + b) == Escape(a) + Escape(b) && Escape("") == ""
    ensures Escape([c]) == if c == '$' then "$2" else if c == ',' then "$1" else if c == ':' then "$0" else [c]
  {
    EscapeEncodes(a + b);
    EscapeEncodes(a);
    EscapeEncodes(b);
    EscapeEncodes([c]);
    EscapeEncodes("");
    EncodedConcat(a, b);
    assert [c][1..] == [];
  }

  /** The text of a package: pairs with a colon inside and commas in between, or "[empty]". */
  lemma PrintedText(keys: seq<string>, data: map<string, string>)
    requires forall k <- keys :: k in data
    ensures keys == [] ==> Printed(keys, data) == "[empty]"
    ensures |keys| == 1 ==> Printed(keys, data) == Escape(keys[0]) + ":" + Escape(data[keys[0]])
    ensures |keys| > 1 ==> (forall k <- keys[1..] :: k in data)
    ensures |keys| > 1 ==> Printed(keys, data) == Escape(keys[0]) + ":" + Escape(data[keys[0]]) + "," + Printed(keys[1..], data)
  {
    hide Escape;
    if keys != [] {
      assert forall k <- keys[1..] :: k in keys;
      if |keys| == 1 { assert keys[1..] == []; }
    }
  }

  lemma {:induction false} AbsorbUnion(pairs: seq<string>, acc: map<string, string>)
    ensures Absorb(pairs, acc) == acc + Absorb(pairs, map[])
    decreases |pairs|
  {
    if pairs != [] {
      var kv := Split(pairs[0], KEY_VALUE_SEPARATOR);
      hide Split, Unescape;
      var one: map<string, string> := if |kv| == 2 then map[Unescape(kv[0]) := Unescape(kv[1])] else map[];
      AbsorbUnion(pairs[1..], acc + one);
      AbsorbUnion(pairs[1..], one);
      assert acc + one == if |kv| == 2 then acc[Unescape(kv[0]) := Unescape(kv[1])] else acc;
      assert map[] + one == one;
      assert Absorb(pairs, acc) == Absorb(pairs[1..], acc + one);
      assert Absorb(pairs, map[]) == Absorb(pairs[1..], one);
      assert acc + one + Absorb(pairs[1..], map[]) == acc + (one + Absorb(pairs[1..], map[]));
    }
  }

  /** The placeholder parses as any other text would. */
  lemma ParsedIsAbsorbed(s: string)
    ensures Parsed(s) == Absorb(Split(s, ','), map[])
  {
    if s == EMPTY_PLACEHOLDER {
      SplitLast(s, ',');
      SplitLast(s, ':');
    }
  }

  /** Parsing goes pair by pair, and later pairs override earlier ones. */
  lemma ParsedPairs(p: string, rest: string)
    requires ',' !in p
    ensures Parsed(p + "," + rest) == Parsed(p) + Parsed(rest)
  {
    ParsedIsAbsorbed(p + "," + rest);
    ParsedIsAbsorbed(p);
    ParsedIsAbsorbed(rest);
    SplitFirst(p, rest, ',');
    SplitLast(p, ',');
    var ps := Split(rest, ',');
    if p == [] { SplitLast(p, ':'); }
    AbsorbFirst(p, ps);
  }

  lemma AbsorbFirst(p: string, ps: seq<string>)
    ensures Absorb([p] + ps, map[]) == Absorb([p], map[]) + Absorb(ps, map[])
  {
    assert ([p] + ps)[1..] == ps && [p][1..] == [];
    hide Split, Unescape;
    AbsorbUnion(ps, Absorb([p], map[]));
  }

  /** A pair is a key, a colon and a value that is not empty. */
  lemma ParsedPair(key: string, value: string)
    requires ',' !in key && ':' !in key && ',' !in value && ':' !in value && value != []
    ensures Parsed(key + ":" + value) == map[Unescape(key) := Unescape(value)]
  {
    OnePiece(key + ":" + value);
    SplitFirst(key, value, ':');
    SplitLast(value, ':');
    hide Split, Parsed, Unescape;
  }

  /** What has no colon, nothing after it, or more than one, is skipped. */
  lemma MalformedIsSkipped(key: string, value: string, more: string)
    requires ',' !in key && ':' !in key && ',' !in value && ':' !in value && ',' !in more && ':' !in more && more != []
    ensures Parsed(key) == map[] && Parsed(key + ":") == map[] && Parsed(key + ":" + (value + ":" + more)) == map[]
  {
    OnePiece(key);
    OnePiece(key + ":" + []);
    OnePiece(key + ":" + (value + ":" + more));
    SplitLast(key, ':');
    SplitLast([], ':');
    SplitLast(more, ':');
    SplitFirst(key, [], ':');
    SplitFirst(value, more, ':');
    SplitFirst(key, value + ":" + more, ':');
    hide Split, Parsed, Unescape;
    assert key + ":" + [] == key + ":";
  }

  lemma OnePiece(p: string)
    requires ',' !in p
    ensures Parsed(p) == var kv := Split(p, ':'); if |kv| == 2 then map[Unescape(kv[0]) := Unescape(kv[1])] else map[]
  {
    ParsedIsAbsorbed(p);
    SplitLast(p, ',');
    if p == [] { SplitLast(p, ':'); }
    assert [p][1..] == [];
    hide Unescape;
  }
}
