/** The fixed replacement table of the quote normaliser and the substitution it
    induces on characters and strings.

    The plugin hands a four-entry list of [find, replace] pairs to a tree-rewriting
    utility.  Each find is one curly quote, each replace one corner bracket:

      “ (U+201C)  ->  『 (U+300E)
      ” (U+201D)  ->  』 (U+300F)
      ‘ (U+2018)  ->  「 (U+300C)
      ’ (U+2019)  ->  」 (U+300D)

    `MapChar` is the substitution the table denotes, `MapString` its lift to
    strings.  `ApplyPairs` is what the utility does with the list: one pass per
    pair, in list order, each pass replacing every literal occurrence of that
    pair's find.  The lemmas at the end show that the passes compute `MapString`,
    whatever the order of the pairs. */
module QuoteTable {

  /** A [find, replace] pair: both sides are single characters here. */
  type Pair = (char, char)

  const LeftDouble: char := '\U{201C}'
  const RightDouble: char := '\U{201D}'
  const LeftSingle: char := '\U{2018}'
  const RightSingle: char := '\U{2019}'

  const LeftWhiteCorner: char := '\U{300E}'
  const RightWhiteCorner: char := '\U{300F}'
  const LeftCorner: char := '\U{300C}'
  const RightCorner: char := '\U{300D}'

  /** The list passed to the utility, in the order the plugin writes it. */
  const Table: seq<Pair> := [
    (LeftDouble, LeftWhiteCorner),
    (RightDouble, RightWhiteCorner),
    (LeftSingle, LeftCorner),
    (RightSingle, RightCorner)
  ]

  /** The find sides of the table: the four curly quotes. */
  const Sources: set<char> := {LeftDouble, RightDouble, LeftSingle, RightSingle}

  /** The replace sides of the table: the four corner brackets. */
  const Targets: set<char> := {LeftWhiteCorner, RightWhiteCorner, LeftCorner, RightCorner}

  /** `c` is one of the curly quotes the normaliser rewrites. */
  predicate IsSource(c: char) {
    c in Sources
  }

  /** The substitution the table denotes: a source becomes its target, every
      other character is kept. */
  function MapChar(c: char): char
  {
    if c == LeftDouble then LeftWhiteCorner
    else if c == RightDouble then RightWhiteCorner
    else if c == LeftSingle then LeftCorner
    else if c == RightSingle then RightCorner
    else c
  }

  /** The substitution applied to every character of a string. */
  function MapString(s: string): (r: string)
    ensures |r| == |s|
    ensures forall i :: 0 <= i < |s| ==> r[i] == MapChar(s[i])
  {
    if s == [] then [] else [MapChar(s[0])] + MapString(s[1..])
  }

  /** The two sets are exactly the two columns of the table, and they are
      disjoint. */
  lemma TableColumns()
    ensures forall c :: c in Sources <==> exists p :: p in Table && p.0 == c
    ensures forall c :: c in Targets <==> exists p :: p in Table && p.1 == c
    ensures Sources !! Targets
  {
    forall c | c in Sources ensures exists p :: p in Table && p.0 == c {
      if c == LeftDouble { assert Table[0] in Table; }
      else if c == RightDouble { assert Table[1] in Table; }
      else if c == LeftSingle { assert Table[2] in Table; }
      else { assert Table[3] in Table; }
    }
    forall c | c in Targets ensures exists p :: p in Table && p.1 == c {
      if c == LeftWhiteCorner { assert Table[0] in Table; }
      else if c == RightWhiteCorner { assert Table[1] in Table; }
      else if c == LeftCorner { assert Table[2] in Table; }
      else { assert Table[3] in Table; }
    }
  }

  /** Every listed pair is what `MapChar` does; in particular the straight
      ASCII quotes are not touched. */
  lemma MapCharOnTable()
    ensures MapChar(LeftDouble) == LeftWhiteCorner
    ensures MapChar(RightDouble) == RightWhiteCorner
    ensures MapChar(LeftSingle) == LeftCorner
    ensures MapChar(RightSingle) == RightCorner
    ensures MapChar('"') == '"' && MapChar('\'') == '\''
    ensures forall i :: 0 <= i < |Table| ==> MapChar(Table[i].0) == Table[i].1
  {
  }

  /** A character that is in no entry's find column is kept. */
  lemma MapCharOffTable(c: char)
    ensures (forall i :: 0 <= i < |Table| ==> Table[i].0 != c) ==> MapChar(c) == c
  {
    if forall i :: 0 <= i < |Table| ==> Table[i].0 != c {
      assert Table[0].0 != c && Table[1].0 != c && Table[2].0 != c && Table[3].0 != c;
    }
  }

  /** A curly quote becomes the target of its own entry, any other character is
      kept, and no result is a curly quote. */
  lemma MapCharSpec(c: char)
    ensures IsSource(c) ==> (c, MapChar(c)) in Table && MapChar(c) in Targets
    ensures !IsSource(c) ==> MapChar(c) == c
    ensures MapChar(c) != c <==> IsSource(c)
    ensures !IsSource(MapChar(c))
  {
    if c == LeftDouble { assert Table[0] == (c, MapChar(c)); }
    else if c == RightDouble { assert Table[1] == (c, MapChar(c)); }
    else if c == LeftSingle { assert Table[2] == (c, MapChar(c)); }
    else if c == RightSingle { assert Table[3] == (c, MapChar(c)); }
  }

  /** No target is a source, so a second application changes nothing. */
  lemma MapCharIdempotent(c: char)
    ensures MapChar(MapChar(c)) == MapChar(c)
  {
    MapCharSpec(c);
    MapCharSpec(MapChar(c));
  }

  /** After the substitution no curly quote is left. */
  lemma NoSourceSurvives(s: string)
    ensures forall i :: 0 <= i < |MapString(s)| ==> !IsSource(MapString(s)[i])
  {
    forall i | 0 <= i < |s| ensures !IsSource(MapString(s)[i]) {
      MapCharSpec(s[i]);
    }
  }

  /** Applying the substitution twice is the same as applying it once. */
  lemma {:induction false} MapStringIdempotent(s: string)
    ensures MapString(MapString(s)) == MapString(s)
  {
    if s != [] {
      MapStringIdempotent(s[1..]);
      MapCharIdempotent(s[0]);
      assert MapString(s)[1..] == MapString(s[1..]);
    }
  }

  /** A string is left unchanged exactly when it holds no curly quote. */
  lemma {:induction false} MapStringFixedIff(s: string)
    ensures MapString(s) == s <==> forall i :: 0 <= i < |s| ==> !IsSource(s[i])
  {
    if s != [] {
      MapStringFixedIff(s[1..]);
      MapCharSpec(s[0]);
      if MapString(s) == s {
        assert MapChar(s[0]) == s[0];
        assert MapString(s[1..]) == s[1..] by {
          assert MapString(s)[1..] == MapString(s[1..]);
        }
      }
    }
  }

  /** The substitution distributes over concatenation, so it does not matter
      how a text is cut into pieces before each piece is substituted. */
  lemma {:induction false} MapStringConcat(a: string, b: string)
    ensures MapString(a + b) == MapString(a) + MapString(b)
  {
    var l, r := MapString(a + b), MapString(a) + MapString(b);
    forall i | 0 <= i < |a + b| ensures l[i] == r[i] {
      if i < |a| {
        assert (a + b)[i] == a[i];
      } else {
        assert (a + b)[i] == b[i - |a|];
      }
    }
  }

  /** The concatenation of a list of strings. */
  function Join(parts: seq<string>): string
  {
    if parts == [] then [] else parts[0] + Join(parts[1..])
  }

  /** Substituting each piece and joining equals joining and substituting. */
  lemma {:induction false} MapStringJoin(parts: seq<string>)
    ensures MapString(Join(parts)) == Join(seq(|parts|, i requires 0 <= i < |parts| => MapString(parts[i])))
  {
    var mapped := seq(|parts|, i requires 0 <= i < |parts| => MapString(parts[i]));
    if parts != [] {
      MapStringJoin(parts[1..]);
      MapStringConcat(parts[0], Join(parts[1..]));
      assert mapped[1..] == seq(|parts[1..]|, i requires 0 <= i < |parts[1..]| => MapString(parts[1..][i]));
    }
  }

  // ---------------------------------------------------------------------------
  // What the utility does with the list: one literal pass per pair.

  /** One pass for one pair: every occurrence of the find character is
      replaced by the replace character, every other character is kept. */
  function ReplaceAll(s: string, p: Pair): (r: string)
    ensures |r| == |s|
    ensures forall i :: 0 <= i < |s| ==> r[i] == (if s[i] == p.0 then p.1 else s[i])
  {
    if s == [] then [] else [if s[0] == p.0 then p.1 else s[0]] + ReplaceAll(s[1..], p)
  }

  /** One pass distributes over concatenation: the pieces a text node is
      split into by an earlier pass are rewritten as the unsplit text would be. */
  lemma ReplaceAllConcat(a: string, b: string, p: Pair)
    ensures ReplaceAll(a + b, p) == ReplaceAll(a, p) + ReplaceAll(b, p)
  {
    var l, r := ReplaceAll(a + b, p), ReplaceAll(a, p) + ReplaceAll(b, p);
    forall i | 0 <= i < |a + b| ensures l[i] == r[i] {
      if i < |a| {
        assert (a + b)[i] == a[i];
      } else {
        assert (a + b)[i] == b[i - |a|];
      }
    }
  }

  /** The passes for a list of pairs, made one after the other in list order. */
  function ApplyPairs(pairs: seq<Pair>, s: string): (r: string)
    ensures |r| == |s|
  {
    if pairs == [] then s else ApplyPairs(pairs[1..], ReplaceAll(s, pairs[0]))
  }

  /** The replace side of the first pair whose find side is `c`, or `c` itself. */
  function Lookup(pairs: seq<Pair>, c: char): char
  {
    if pairs == [] then c
    else if pairs[0].0 == c then pairs[0].1
    else Lookup(pairs[1..], c)
  }

  /** No pass can feed the next: no replace side is a find side. */
  predicate NoChain(pairs: seq<Pair>) {
    forall p, q :: p in pairs && q in pairs ==> p.1 != q.0
  }

  /** Entries with the same find side agree on the replace side. */
  predicate Functional(pairs: seq<Pair>) {
    forall p, q :: p in pairs && q in pairs && p.0 == q.0 ==> p.1 == q.1
  }

  /** When no pass feeds another, the sequence of passes acts on each
      character independently, as the first matching pair says. */
  lemma {:induction false} ApplyPairsPointwise(pairs: seq<Pair>, s: string)
    requires NoChain(pairs)
    ensures |ApplyPairs(pairs, s)| == |s|
    ensures forall k :: 0 <= k < |s| ==> ApplyPairs(pairs, s)[k] == Lookup(pairs, s[k])
  {
    if pairs != [] {
      var t := ReplaceAll(s, pairs[0]);
      assert NoChain(pairs[1..]) by {
        forall p, q | p in pairs[1..] && q in pairs[1..] ensures p.1 != q.0 {
          assert p in pairs && q in pairs;
        }
      }
      ApplyPairsPointwise(pairs[1..], t);
      forall k | 0 <= k < |s| ensures ApplyPairs(pairs, s)[k] == Lookup(pairs, s[k]) {
        if s[k] == pairs[0].0 {
          assert pairs[0] in pairs;
          LookupMiss(pairs[1..], pairs[0].1, pairs);
        }
      }
    }
  }

  /** A character that is no find side of `pairs` is returned as it is. */
  lemma {:induction false} LookupMiss(pairs: seq<Pair>, c: char, whole: seq<Pair>)
    requires forall p :: p in pairs ==> p in whole
    requires forall q :: q in whole ==> q.0 != c
    ensures Lookup(pairs, c) == c
  {
    if pairs != [] {
      assert pairs[0] in whole;
      LookupMiss(pairs[1..], c, whole);
    }
  }

  /** With agreeing entries, the first match is any match. */
  lemma {:induction false} LookupHit(pairs: seq<Pair>, p: Pair, whole: seq<Pair>)
    requires forall q :: q in pairs ==> q in whole
    requires Functional(whole) && p in whole && p in pairs
    ensures Lookup(pairs, p.0) == p.1
  {
    assert pairs[0] in whole;
    if pairs[0].0 != p.0 {
      assert p in pairs[1..];
      LookupHit(pairs[1..], p, whole);
    }
  }

  /** A list with exactly the entries of the table looks characters up as
      `MapChar` maps them. */
  lemma LookupAsTable(pairs: seq<Pair>, c: char)
    requires forall p :: p in pairs <==> p in Table
    ensures Lookup(pairs, c) == MapChar(c)
  {
    MapCharOnTable();
    MapCharOffTable(c);
    if IsSource(c) {
      var i :| 0 <= i < |Table| && Table[i].0 == c;
      LookupHit(pairs, Table[i], pairs);
    } else {
      LookupMiss(pairs, c, pairs);
    }
  }

  /** The passes the plugin asks for compute the substitution, and so does any
      reordering of the list (or a list repeating its entries). */
  lemma PassesInAnyOrder(pairs: seq<Pair>, s: string)
    requires forall p :: p in pairs <==> p in Table
    ensures ApplyPairs(pairs, s) == MapString(s)
  {
    ApplyPairsPointwise(pairs, s);
    forall k | 0 <= k < |s| ensures ApplyPairs(pairs, s)[k] == MapString(s)[k] {
      LookupAsTable(pairs, s[k]);
    }
  }

  /** The passes in the order the plugin lists them compute the substitution. */
  lemma PassesInTableOrder(s: string)
    ensures ApplyPairs(Table, s) == MapString(s)
  {
    PassesInAnyOrder(Table, s);
  }

  /** Double curly quotes become white corner brackets. */
  lemma ExampleDouble()
    ensures MapString("\U{201C}Hello\U{201D}") == "\U{300E}Hello\U{300F}"
  {
    var s, t := "\U{201C}Hello\U{201D}", "\U{300E}Hello\U{300F}";
    forall i | 0 <= i < |s| ensures MapString(s)[i] == t[i] {
      // Case-split hint: one case per position of the literal.
      assert i == 0 || i == 1 || i == 2 || i == 3 || i == 4 || i == 5 || i == 6;
    }
  }

  /** Single curly quotes become corner brackets. */
  lemma ExampleSingle()
    ensures MapString("\U{2018}single\U{2019}") == "\U{300C}single\U{300D}"
  {
    var s, t := "\U{2018}single\U{2019}", "\U{300C}single\U{300D}";
    forall i | 0 <= i < |s| ensures MapString(s)[i] == t[i] {
      // Case-split hint: one case per position of the literal.
      assert i == 0 || i == 1 || i == 2 || i == 3 || i == 4 || i == 5 || i == 6 || i == 7;
    }
  }

  /** Nested quotes are each replaced by their own counterpart. */
  lemma ExampleNested()
    ensures MapString("\U{201C}A \U{2018}B\U{2019} C\U{201D}") == "\U{300E}A \U{300C}B\U{300D} C\U{300F}"
  {
    var s, t := "\U{201C}A \U{2018}B\U{2019} C\U{201D}", "\U{300E}A \U{300C}B\U{300D} C\U{300F}";
    forall i | 0 <= i < |s| ensures MapString(s)[i] == t[i] {
      // Case-split hint: one case per position of the literal.
      assert i == 0 || i == 1 || i == 2 || i == 3 || i == 4 || i == 5 || i == 6 || i == 7 || i == 8;
    }
  }

  /** Straight ASCII quotes are not in the table and stay as they are. */
  lemma ExampleStraight()
    ensures MapString("\"plain text\"") == "\"plain text\""
  {
    var s := "\"plain text\"";
    forall i | 0 <= i < |s| ensures !IsSource(s[i]) {
      // Case-split hint: one case per position of the literal.
      assert i == 0 || i == 1 || i == 2 || i == 3 || i == 4 || i == 5 || i == 6 || i == 7 || i == 8 || i == 9 || i == 10 || i == 11;
    }
    MapStringFixedIff(s);
  }
}
