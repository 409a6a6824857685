/**
 The key=value;key=value strings kept in a hash map: tokenising, printing in
 bucket order, and the two meeting in a round trip.
 */
module StrParms {
  import opened Bits
  import opened Wrappers
  import opened Hashmaps

  type Pair = (string, string)

  // ------------------------------------------------------------------------
  // Parsing
  // ------------------------------------------------------------------------

  /** The number of characters before the first `c`, or |s|. */
  function Span(s: string, c: char): (n: nat)
    ensures n <= |s|
    ensures c !in s[..n] && (n < |s| ==> s[n] == c)
  {
    if s == [] || s[0] == c then 0 else 1 + Span(s[1..], c)
  }

  /** The tokens strtok_r finds for the delimiter ';': the maximal non-empty stretches without it. */
  function Tokens(s: string): seq<string>
    decreases |s|
  {
    if s == [] then []
    else if s[0] == ';' then Tokens(s[1..])
    else
      var n := Span(s, ';');
      [s[..n]] + Tokens(s[n..])
  }

  predicate Clean(token: string) { token != "" && ';' !in token }

  /** The key and value of a token; None when it starts with '='. */
  function SplitPair(token: string): Option<Pair> {
    var eq := Span(token, '=');
    if eq == 0 && token != [] then None
    else if eq < |token| then Some((token[..eq], token[eq + 1..]))
    else Some((token, ""))
  }

  function AddToken(m: map<string, string>, token: string): map<string, string> {
    match SplitPair(token)
    case None => m
    case Some((key, value)) => m[key := value]
  }

  function AddTokens(m: map<string, string>, tokens: seq<string>): map<string, string>
    decreases |tokens|
  {
    if tokens == [] then m else AddTokens(AddToken(m, tokens[0]), tokens[1..])
  }

  function Parse(s: string): map<string, string> { AddTokens(map[], Tokens(s)) }

  // ------------------------------------------------------------------------
  // Printing
  // ------------------------------------------------------------------------

  function PrintPair(p: Pair): string { p.0 + "=" + p.1 }

  /** combine_strings appends each pair after a ';'. */
  function Print(pairs: seq<Pair>): string {
    if pairs == [] then ""
    else
      var last := PrintPair(pairs[|pairs| - 1]);
      if |pairs| == 1 then last else Print(pairs[..|pairs| - 1]) + ";" + last
  }

  predicate PrintablePair(p: Pair) {
    p.0 != "" && ';' !in p.0 && '=' !in p.0 && ';' !in p.1
  }

  ghost predicate Printable(m: map<string, string>) {
    forall k <- m :: PrintablePair((k, m[k]))
  }

  /** Later pairs win. */
  function ToMap(pairs: seq<Pair>): map<string, string> {
    if pairs == [] then map[]
    else
      var (k, v) := pairs[|pairs| - 1];
      ToMap(pairs[..|pairs| - 1])[k := v]
  }

  // ------------------------------------------------------------------------
  // Round trip
  // ------------------------------------------------------------------------

  lemma SpanWithout(s: string, c: char)
    ensures c !in s ==> Span(s, c) == |s|
  {
  }

  lemma {:induction false} SpanConcat(a: string, c: char, b: string)
    ensures c !in a ==> Span(a + [c] + b, c) == |a|
    ensures c in a ==> Span(a + [c] + b, c) == Span(a, c) < |a|
  {
    var s := a + [c] + b;
    if a != [] {
      assert s[1..] == a[1..] + [c] + b && s[0] == a[0];
      if a[0] != c {
        SpanConcat(a[1..], c, b);
        assert c in a <==> c in a[1..];
      }
    }
  }

  /** A ';' separates the tokens before it from those after it. */
  lemma {:induction false} TokensSplit(a: string, b: string)
    ensures Tokens(a + ";" + b) == Tokens(a) + Tokens(b)
    decreases |a|
  {
    var s := a + ";" + b;
    if a == [] {
      assert s[1..] == b;
    } else if a[0] == ';' {
      assert s[1..] == a[1..] + ";" + b;
      TokensSplit(a[1..], b);
    } else {
      var n := Span(a, ';');
      SpanConcat(a, ';', b);
      SpanWithout(a, ';');
      assert Span(s, ';') == n;
      assert n > 0 && s[..n] == a[..n] && s[n..] == a[n..] + ";" + b;
      TokensSplit(a[n..], b);
      assert Tokens(s) == [a[..n]] + (Tokens(a[n..]) + Tokens(b));
    }
  }

  lemma TokensOfPair(p: Pair)
    requires PrintablePair(p)
    ensures Tokens(PrintPair(p)) == [PrintPair(p)]
    ensures SplitPair(PrintPair(p)) == Some(p)
  {
    var t := PrintPair(p);
    assert ';' !in t;
    SpanWithout(t, ';');
    assert t[..|t|] == t && Tokens(t[|t|..]) == [];
    SpanConcat(p.0, '=', p.1);
    assert t == p.0 + ['='] + p.1;
    assert t[..|p.0|] == p.0 && t[|p.0| + 1..] == p.1;
  }

  lemma {:induction false} AddTokensSnoc(m: map<string, string>, tokens: seq<string>, token: string)
    ensures AddTokens(m, tokens + [token]) == AddToken(AddTokens(m, tokens), token)
    decreases |tokens|
  {
    if tokens == [] {
      assert [token][1..] == [];
    } else {
      assert (tokens + [token])[1..] == tokens[1..] + [token];
      AddTokensSnoc(AddToken(m, tokens[0]), tokens[1..], token);
    }
  }

  /** Parsing what was printed gives the pairs back, whatever the order and however often a key occurs. */
  lemma {:induction false} ParsePrint(pairs: seq<Pair>)
    requires forall p <- pairs :: PrintablePair(p)
    ensures Parse(Print(pairs)) == ToMap(pairs)
    decreases |pairs|
  {
    if pairs != [] {
      var n := |pairs| - 1;
      var before, last := pairs[..n], pairs[n];
      ParsePrint(before);
      TokensOfPair(last);
      if n > 0 {
        TokensSplit(Print(before), PrintPair(last));
        assert Print(pairs) == Print(before) + ";" + PrintPair(last);
      } else {
        assert Tokens(Print(before)) == [];
      }
      assert Tokens(Print(pairs)) == Tokens(Print(before)) + [PrintPair(last)];
      AddTokensSnoc(map[], Tokens(Print(before)), PrintPair(last));
    }
  }

  /** One more token: a ';' and text without one. */
  lemma OneMoreToken(a: string, token: string)
    requires token != "" && ';' !in token
    ensures Parse(a + ";" + token) == AddToken(Parse(a), token)
  {
    SpanWithout(token, ';');
    assert token[..|token|] == token && Tokens(token[|token|..]) == [];
    assert Tokens(token) == [token];
    TokensSplit(a, token);
    AddTokensSnoc(map[], Tokens(a), token);
  }

  /** What each shape of token adds to what was parsed before it: a pair, a bare key, nothing without a key, nothing. */
  lemma TokenShapes(a: string, key: string, value: string)
    requires key != "" && '=' !in key && ';' !in key && ';' !in value
    ensures Parse(a + ";" + (key + "=" + value)) == Parse(a)[key := value]
    ensures Parse(a + ";" + key) == Parse(a)[key := ""]
    ensures Parse(a + ";" + ("=" + value)) == Parse(a)
    ensures Parse(a + ";") == Parse(a)
    ensures Parse("") == map[]
  {
    OneMoreToken(a, key + "=" + value);
    OneMoreToken(a, key);
    OneMoreToken(a, "=" + value);
    TokensOfPair((key, value));
    SpanWithout(key, '=');
    assert SplitPair(key) == Some((key, ""));
    assert SplitPair("=" + value) == None;
    assert a + ";" + "" == a + ";" && Tokens("") == [];
    TokensSplit(a, "");
    assert Tokens(a) + [] == Tokens(a);
  }

  lemma {:induction false} ToMapFacts(pairs: seq<Pair>)
    ensures forall k :: k in ToMap(pairs) <==> exists p :: p in pairs && p.0 == k
    ensures (forall a, b | 0 <= a < b < |pairs| :: pairs[a].0 != pairs[b].0) ==>
              forall p <- pairs :: p.0 in ToMap(pairs) && ToMap(pairs)[p.0] == p.1
    decreases |pairs|
  {
    if pairs != [] {
      var n := |pairs| - 1;
      var before := pairs[..n];
      ToMapFacts(before);
      assert pairs == before + [pairs[n]];
      forall k | exists p :: p in pairs && p.0 == k
        ensures k in ToMap(pairs)
      {
        var p :| p in pairs && p.0 == k;
        assert p in before || p == pairs[n];
      }
      forall k | k in ToMap(pairs)
        ensures exists p :: p in pairs && p.0 == k
      {
        if k in ToMap(before) {
          var p :| p in before && p.0 == k;
          assert p in pairs;
        } else {
          assert pairs[n] in pairs;
        }
      }
    }
  }

  /** An enumeration of a map's pairs, each key once, rebuilds the map. */
  lemma EnumerationIsMap(pairs: seq<Pair>, m: map<string, string>)
    requires forall p <- pairs :: p.0 in m && m[p.0] == p.1
    requires forall k <- m :: exists p :: p in pairs && p.0 == k
    requires forall a, b | 0 <= a < b < |pairs| :: pairs[a].0 != pairs[b].0
    ensures ToMap(pairs) == m
  {
    hide ToMap;
    ToMapFacts(pairs);
    forall k
      ensures k in ToMap(pairs) <==> k in m
      ensures k in m ==> ToMap(pairs)[k] == m[k]
    {
      SameAt(pairs, m, k);
    }
  }

  lemma SameAt(pairs: seq<Pair>, m: map<string, string>, k: string)
    requires forall p <- pairs :: p.0 in m && m[p.0] == p.1
    requires k in m ==> exists p :: p in pairs && p.0 == k
    requires k in ToMap(pairs) <==> exists p :: p in pairs && p.0 == k
    requires forall p <- pairs :: p.0 in ToMap(pairs) && ToMap(pairs)[p.0] == p.1
    ensures k in ToMap(pairs) <==> k in m
    ensures k in m ==> ToMap(pairs)[k] == m[k]
  {
    hide ToMap;
  }

  /** Whatever was parsed can be printed: keys are non-empty, and neither part holds a delimiter it may not. */
  lemma {:induction false} ParsedIsPrintable(s: string)
    ensures Printable(Parse(s))
  {
    TokensAreClean(s);
    AddTokensPrintable(map[], Tokens(s));
  }

  lemma {:induction false} TokensAreClean(s: string)
    ensures forall t <- Tokens(s) :: Clean(t)
    decreases |s|
  {
    if s != [] {
      if s[0] == ';' {
        TokensAreClean(s[1..]);
      } else {
        TokensAreClean(s[Span(s, ';')..]);
      }
    }
  }

  lemma {:induction false} AddTokensPrintable(m: map<string, string>, tokens: seq<string>)
    requires Printable(m) && forall t <- tokens :: Clean(t)
    ensures Printable(AddTokens(m, tokens))
    decreases |tokens|
  {
    if tokens != [] {
      assert forall t <- tokens[1..] :: t in tokens;
      AddTokenPrintable(m, tokens[0]);
      AddTokensPrintable(AddToken(m, tokens[0]), tokens[1..]);
    }
  }

  lemma AddTokenPrintable(m: map<string, string>, t: string)
    requires Printable(m) && Clean(t)
    ensures Printable(AddToken(m, t))
  {
    var eq := Span(t, '=');
    assert forall c <- t[..eq] :: c in t;
    assert eq < |t| ==> forall c <- t[eq + 1..] :: c in t;
  }

  // ------------------------------------------------------------------------
  // struct str_parms
  // ------------------------------------------------------------------------

  /** The djb hash in 32 bits. */
  function StrHash(s: string): i32 {
    I32(Djb(s))
  }

  function Djb(s: string): u32 {
    if s == "" then 5381
    else
      var h := Djb(s[..|s| - 1]);
      U32(U32(U32(h * 32) + h) + s[|s| - 1] as int)
  }

  function Pairs(visited: seq<Entry<string, string>>): seq<Pair> {
    seq(|visited|, j requires 0 <= j < |visited| => (visited[j].key, visited[j].value))
  }

  const StrHasher: Hasher<string> := Hasher(StrHash, (a, b) => a == b)

  const ENOENT: int := 2
  const ENOMEM: int := 12

  class StrParms {
    var hashmap: Hashmap<string, string>

    /** The keys of pairs the map still holds although their strings have been freed. */
    ghost var freed: set<string>

    ghost predicate Valid()
      reads this, hashmap, hashmap.buckets
    {
      Structured() && freed == {}
    }

    ghost predicate Structured()
      reads this, hashmap, hashmap.buckets
    {
      hashmap.Valid() && hashmap.hasher == StrHasher
    }

    /** The parameters as a mathematical map. */
    ghost function Contents(): map<string, string>
      reads this, hashmap
    {
      hashmap.contents
    }

    constructor ()
      ensures Valid() && fresh(hashmap) && fresh(hashmap.buckets) && Contents() == map[]
      ensures 6 < hashmap.buckets.Length <= 13
    {
      hide Stored, GoodHasher, Placed;
      hashmap := new Hashmap(5, StrHasher);
      freed := {};
    }

    /** str_parms_create_str on a fresh object: the strtok_r loop. */
    method FillFrom(s: string)
      requires Valid() && Contents() == map[]
      modifies hashmap, hashmap.buckets
      ensures Valid() && Contents() == Parse(s) && Printable(Contents())
      ensures hashmap.buckets == old(hashmap.buckets) || fresh(hashmap.buckets)
    {
      hide Stored, Span;
      ParsedIsPrintable(s);
      var str := s;
      while str != []
        invariant Valid()
        invariant hashmap.buckets == old(hashmap.buckets) || fresh(hashmap.buckets)
        invariant AddTokens(Contents(), Tokens(str)) == Parse(s)
        decreases |str|
      {
        if str[0] == ';' {
          str := str[1..];
          continue;
        }
        var n := Span(str, ';');
        var kvpair := str[..n];
        str := str[n..];
        var pair := SplitPair(kvpair);
        if pair.Some? {
          var _, _ := PutPair(pair.value.0, pair.value.1, true, true);
        }
      }
    }

    /** hashmapPut where keys are equal only to themselves. */
    method PutPair(key: string, value: string, entryOk: bool, bucketsOk: bool) returns (replaced: bool, enomem: bool)
      requires Valid()
      modifies hashmap, hashmap.buckets
      ensures Valid() && (hashmap.buckets == old(hashmap.buckets) || fresh(hashmap.buckets))
      ensures replaced <==> key in old(Contents())
      ensures Contents() == if replaced || entryOk then old(Contents())[key := value] else old(Contents())
      ensures enomem <==> !replaced && (!entryOk || (old(hashmap.Full()) && !bucketsOk))
      ensures !old(hashmap.Full()) ==> hashmap.buckets.Length == old(hashmap.buckets.Length)
    {
      hide Stored, GoodHasher, Equivalent, LoadLimit;
      OwnKeyOnly(hashmap.contents, key);
      var oldVal;
      oldVal, enomem := hashmap.Put(key, value, entryOk, bucketsOk);
      replaced := oldVal.Some?;
    }

    /**
     str_parms_add_str; the flags say which allocations succeed.  Success is
     read off errno, so a new pair that is stored in a map that then cannot
     grow counts as a failure, and its strings are freed under the map.
     */
    method AddStr(key: string, value: string, keyOk: bool, valueOk: bool, entryOk: bool, bucketsOk: bool)
      returns (r: int)
      requires Valid()
      modifies this`freed, hashmap, hashmap.buckets
      ensures Structured() && (r == 0 || r == -ENOMEM)
      ensures hashmap.buckets == old(hashmap.buckets) || fresh(hashmap.buckets)
      ensures r == 0 <==>
                keyOk && valueOk && (key in old(Contents()) || (entryOk && (bucketsOk || !old(hashmap.Full()))))
      ensures Contents() ==
                if keyOk && valueOk && (key in old(Contents()) || entryOk) then old(Contents())[key := value]
                else old(Contents())
      ensures freed == if keyOk && valueOk && entryOk && key !in old(Contents()) && r != 0 then {key} else {}
      ensures !old(hashmap.Full()) ==> hashmap.buckets.Length == old(hashmap.buckets.Length)
    {
      hide Stored, GoodHasher, LoadLimit;
      if !keyOk || !valueOk {
        return -ENOMEM;
      }
      var replaced, enomem := PutPair(key, value, entryOk, bucketsOk);
      if !replaced && enomem {
        freed := if entryOk then {key} else {};
        return -ENOMEM;
      }
      return 0;
    }

    /** The i-th of some different keys. */
    static function NthKey(i: nat): string
      requires i < 26
    {
      ['a' + i as char]
    }

    /**
     Keys added to new parameters until the map is full, and one more whose
     expansion fails: it is in the map, reported as not added, and freed.
     */
    static method FailedExpansion() returns (p: StrParms, n: nat, r: int)
      ensures n < 26 && r == -ENOMEM
      ensures fresh(p) && p.Structured() && p.freed == {NthKey(n)}
      ensures |p.Contents()| == n + 1 && NthKey(n) in p.Contents() && p.Contents()[NthKey(n)] == "v"
    {
      hide Stored, GoodHasher, Equivalent;
      p := new StrParms();
      n := 0;
      SizeIsCount(p.hashmap);
      while !p.hashmap.Full()
        invariant p.Valid() && fresh(p) && fresh(p.hashmap) && fresh(p.hashmap.buckets)
        invariant 6 < p.hashmap.buckets.Length <= 13 && n == p.hashmap.size == |p.Contents()| <= 10
        invariant forall i | n <= i < 26 :: NthKey(i) !in p.Contents()
        decreases 20 - n
      {
        r := p.AddStr(NthKey(n), "v", true, true, true, true);
        n := n + 1;
        SizeIsCount(p.hashmap);
      }
      r := p.AddStr(NthKey(n), "v", true, true, true, false);
    }

    static lemma SizeIsCount(m: Hashmap<string, string>)
      requires m.Valid()
      ensures m.size == |m.contents|
    {
    }

    /** str_parms_get_str: the value cut to the room, with its full length, or -ENOENT and nothing written. */
    method GetStr(key: string, val: array<char>, len: nat) returns (r: int)
      requires Valid() && len <= val.Length
      modifies val
      ensures Contents() == old(Contents())
      ensures r == if key in Contents() then |Contents()[key]| else -ENOENT
      ensures key in Contents() && len > 0 ==>
                var n := if r < len then r else len - 1;
                val[..n] == Contents()[key][..n] && val[n] == '\0' && val[n + 1..] == old(val[n + 1..])
      ensures key !in Contents() || len == 0 ==> val[..] == old(val[..])
    {
      hide Stored, GoodHasher, Equivalent;
      OwnKeyOnly(hashmap.contents, key);
      var value := hashmap.Get(key);
      if value.None? {
        return -ENOENT;
      }
      r := Strlcpy(val, value.value, len);
    }

    /** As much of the text as leaves room for the terminator; the full length is returned. */
    static method Strlcpy(val: array<char>, text: string, len: nat) returns (r: nat)
      requires len <= val.Length
      modifies val
      ensures r == |text|
      ensures len > 0 ==>
                var n := if r < len then r else len - 1;
                val[..n] == text[..n] && val[n] == '\0' && val[n + 1..] == old(val[n + 1..])
      ensures len == 0 ==> val[..] == old(val[..])
    {
      if len > 0 {
        var n := if |text| < len then |text| else len - 1;
        forall i | 0 <= i < n { val[i] := text[i]; }
        val[n] := '\0';
      }
      return |text|;
    }

    /** str_parms_to_str: what it prints parses back to the same parameters. */
    method ToStr() returns (str: string)
      requires Valid()
      ensures Printable(Contents()) ==> Parse(str) == Contents()
    {
      hide Stored;
      var visited := hashmap.ForEach((e: Entry<string, string>) => true);
      str := CombineStrings(visited);
      PrintedContents(visited, Pairs(visited), Contents());
    }

    /** The callback combine_strings, over the entries in the order they are visited. */
    static method CombineStrings(visited: seq<Entry<string, string>>) returns (str: string)
      ensures str == Print(Pairs(visited))
    {
      str := "";
      var pairs: seq<Pair> := [];
      for i := 0 to |visited|
        invariant pairs == Pairs(visited[..i]) && str == Print(pairs)
      {
        var pair := (visited[i].key, visited[i].value);
        assert (pairs + [pair])[..i] == pairs;
        str := if i == 0 then PrintPair(pair) else str + ";" + PrintPair(pair);
        pairs := pairs + [pair];
        assert pairs == Pairs(visited[..i + 1]);
      }
      assert visited[..|visited|] == visited;
    }

    /** str_parms_del and str_parms_destroy without a key: every entry is removed, each exactly once. */
    method DelAll()
      requires Valid()
      modifies hashmap, hashmap.buckets
      ensures Valid() && Contents() == map[] && hashmap.buckets == old(hashmap.buckets)
    {
      var _ := hashmap.RemoveEach();
    }

    /** str_parms_del with a key: the walk stops at the entry it removes. */
    method Del(key: string)
      requires Valid()
      modifies hashmap, hashmap.buckets
      ensures Valid() && Contents() == old(Contents()) - {key} && hashmap.buckets == old(hashmap.buckets)
    {
      hide Stored, GoodHasher, Equivalent, Until, Flat;
      var visited := hashmap.ForEach((e: Entry<string, string>) => e.key != key);
      OwnKeyOnly(hashmap.contents, key);
      if |visited| > 0 && visited[|visited| - 1].key == key {
        var _ := hashmap.Remove(visited[|visited| - 1].key);
      }
    }
  }

  lemma OwnKeyOnly(m: map<string, string>, key: string)
    ensures forall k :: Equivalent(m, StrHasher, key, k) <==> k in m && k == key
    ensures key !in m ==> m - {key} == m
  {
  }

  lemma PrintedContents(visited: seq<Entry<string, string>>, pairs: seq<Pair>, m: map<string, string>)
    requires |pairs| == |visited| && forall j | 0 <= j < |pairs| :: pairs[j] == (visited[j].key, visited[j].value)
    requires forall e <- visited :: e.key in m && m[e.key] == e.value
    requires forall k <- m :: exists e :: e in visited && e.key == k
    requires forall a, b | 0 <= a < b < |visited| :: visited[a].key != visited[b].key
    ensures Printable(m) ==> Parse(Print(pairs)) == m
  {
    EnumerationIsMap(pairs, m);
    if Printable(m) {
      EnumerationPrintable(pairs, m);
      ParsePrint(pairs);
    }
  }

  lemma EnumerationPrintable(pairs: seq<Pair>, m: map<string, string>)
    requires Printable(m) && forall p <- pairs :: p.0 in m && m[p.0] == p.1
    ensures forall p <- pairs :: PrintablePair(p)
  {
    forall p | p in pairs
      ensures PrintablePair(p)
    {
      assert p == (p.0, m[p.0]);
    }
  }
}
