/** Class names generated for RPC methods: the underscore-separated parts of the method name,
    each capitalised or replaced from a table of acronyms, then "Params". */
module RpcNames {
  import opened Prelude
  import opened Text

  type Acronyms = map<string, string>

  const ACRONYM_MAP: Acronyms := map["mcp" := "MCP", "oauth" := "OAuth", "ace" := "Ace", "rebac" := "Rebac",
                                     "api" := "API", "url" := "URL", "gc" := "GC"]

  predicate IsUpper(c: char) { 'A' <= c <= 'Z' }

  predicate IsLower(c: char) { 'a' <= c <= 'z' }

  function ToUpper(c: char): char { if IsLower(c) then (c as int - 32) as char else c }

  function ToLower(c: char): char { if IsUpper(c) then (c as int + 32) as char else c }

  function Capitalize(p: string): string {
    if p == "" then "" else [ToUpper(p[0])] + seq(|p| - 1, i requires 0 <= i < |p| - 1 => ToLower(p[i + 1]))
  }

  function PartName(t: Acronyms, p: string): string { if p in t then t[p] else Capitalize(p) }

  function Namer(t: Acronyms): string -> string { (p: string) => PartName(t, p) }

  function Glue(t: Acronyms, parts: seq<string>): string { FlatMap(Namer(t), parts) }

  lemma GlueOfNext(t: Acronyms, parts: seq<string>, p: string)
    ensures Glue(t, parts + [p]) == Glue(t, parts) + PartName(t, p)
  {
    FlatMapNext(Namer(t), parts, p);
  }

  lemma GlueOfFirst(t: Acronyms, parts: seq<string>)
    requires parts != []
    ensures Glue(t, parts) == PartName(t, parts[0]) + Glue(t, parts[1..])
  {
  }

  lemma GlueOfPrefix(t: Acronyms, parts: seq<string>, i: nat)
    requires i < |parts|
    ensures Glue(t, parts[..i + 1]) == Glue(t, parts[..i]) + PartName(t, parts[i])
  {
    GlueOfNext(t, parts[..i], parts[i]);
    assert parts[..i + 1] == parts[..i] + [parts[i]];
  }

  function ClassName(t: Acronyms, name: string): string { Glue(t, Split('_', name)) + "Params" }

  method MethodToClassName(t: Acronyms, name: string) returns (className: string)
    ensures className == ClassName(t, name)
  {
    var parts := Split('_', name);
    className := GlueParts(t, parts);
    className := className + "Params";
  }

  method GlueParts(t: Acronyms, parts: seq<string>) returns (className: string)
    ensures className == Glue(t, parts)
  {
    className := "";
    for i := 0 to |parts|
      invariant className == Glue(t, parts[..i])
    {
      if parts[i] in t {
        className := className + t[parts[i]];
      } else {
        className := className + Capitalize(parts[i]);
      }
      GlueOfPrefix(t, parts, i);
    }
    assert parts[..|parts|] == parts;
  }

  /* ---- when class names are equal ---- */

  /** Starts with a lowercase letter and holds only lowercase letters and digits. */
  predicate IsPart(p: string) {
    |p| >= 1 && IsLower(p[0]) && forall i | 0 <= i < |p| :: IsLower(p[i]) || '0' <= p[i] <= '9'
  }

  predicate AllParts(parts: seq<string>) { forall p | p in parts :: IsPart(p) }

  predicate IsPlainName(name: string) { AllParts(Split('_', name)) }

  lemma CapitalizedShape(p: string)
    requires IsPart(p)
    ensures |Capitalize(p)| == |p| && IsUpper(Capitalize(p)[0]) && ToLower(Capitalize(p)[0]) == p[0]
    ensures forall i | 1 <= i < |p| :: Capitalize(p)[i] == p[i] && !IsUpper(p[i])
  {
    var x := Capitalize(p);
    forall i | 1 <= i < |p| ensures x[i] == p[i] && !IsUpper(p[i]) {
      assert x[i] == ToLower(p[i]) && (IsLower(p[i]) || '0' <= p[i] <= '9');
    }
  }

  lemma CapitalizeIsInjective(p: string, q: string)
    requires IsPart(p) && IsPart(q) && Capitalize(p) == Capitalize(q)
    ensures p == q
  {
    CapitalizedShape(p);
    CapitalizedShape(q);
    assert forall i | 0 <= i < |p| :: p[i] == q[i];
  }

  /** The parts that capitalise to an acronym: it is cut before every capital. */
  function Pieces(x: string): seq<string> {
    if x == "" then []
    else
      var init, c := Pieces(x[..|x| - 1]), x[|x| - 1];
      if IsUpper(c) || init == [] then init + [[ToLower(c)]]
      else init[..|init| - 1] + [init[|init| - 1] + [c]]
  }

  predicate IsReadable(x: string) {
    |x| >= 1 && IsUpper(x[0]) && forall i | 0 <= i < |x| :: IsUpper(x[i]) || IsLower(x[i]) || '0' <= x[i] <= '9'
  }

  predicate IsReadableTable(t: Acronyms) { forall p | p in t :: IsReadable(t[p]) }

  lemma CapitalizeLonger(p: string, c: char)
    requires IsPart(p) && (IsLower(c) || '0' <= c <= '9')
    ensures IsPart(p + [c]) && Capitalize(p + [c]) == Capitalize(p) + [c]
  {
    CapitalizedShape(p);
    CapitalizedShape(p + [c]);
  }

  lemma CapitalizeLetter(c: char)
    requires IsUpper(c)
    ensures IsPart([ToLower(c)]) && Capitalize([ToLower(c)]) == [c]
  {
  }

  /** The pieces after one more character. */
  function WithLast(pieces: seq<string>, c: char): seq<string>
    requires pieces != []
  {
    if IsUpper(c) then pieces + [[ToLower(c)]] else pieces[..|pieces| - 1] + [pieces[|pieces| - 1] + [c]]
  }

  lemma PiecesOfLonger(x: string, c: char)
    ensures Pieces(x) == [] ==> Pieces(x + [c]) == [[ToLower(c)]]
    ensures Pieces(x) != [] ==> Pieces(x + [c]) == WithLast(Pieces(x), c)
  {
    assert (x + [c])[..|x|] == x;
  }

  lemma GlueOfOne(t: Acronyms, p: string)
    ensures Glue(t, [p]) == PartName(t, p)
  {
    GlueOfFirst(t, [p]);
    assert Glue(t, [p][1..]) == [];
  }

  lemma PiecesOfLetter(c: char)
    requires IsUpper(c)
    ensures Pieces([c]) == [[ToLower(c)]] && AllParts([[ToLower(c)]]) && Glue(map[], [[ToLower(c)]]) == [c]
  {
    assert [c][..0] == "";
    CapitalizeLetter(c);
    GlueOfOne(map[], [ToLower(c)]);
  }

  /** Capitalised and glued, the pieces spell the acronym. */
  lemma {:induction false} PiecesSpell(x: string)
    requires IsReadable(x)
    ensures Pieces(x) != [] && AllParts(Pieces(x)) && Glue(map[], Pieces(x)) == x
  {
    var init, c := x[..|x| - 1], x[|x| - 1];
    if |x| == 1 {
      assert x == [c];
      PiecesOfLetter(c);
    } else {
      assert x == init + [c];
      PiecesSpell(init);
      PiecesOfLonger(init, c);
      PieceAdded(init, Pieces(init), c);
    }
  }

  lemma PieceAdded(init: string, pieces: seq<string>, c: char)
    requires pieces != [] && AllParts(pieces) && Glue(map[], pieces) == init
    requires IsUpper(c) || IsLower(c) || '0' <= c <= '9'
    ensures AllParts(WithLast(pieces, c)) && Glue(map[], WithLast(pieces, c)) == init + [c]
  {
    if IsUpper(c) {
      CapitalizeLetter(c);
      GlueOfNext(map[], pieces, [ToLower(c)]);
    } else {
      var front, last := pieces[..|pieces| - 1], pieces[|pieces| - 1];
      assert pieces == front + [last] && last in pieces;
      CapitalizeLonger(last, c);
      GlueOfNext(map[], front, last);
      GlueOfNext(map[], front, last + [c]);
      Associative(Glue(map[], front), Capitalize(last), [c]);
    }
  }

  /** A part as the parts that would give the same letters without the table. */
  function Expansion(t: Acronyms, p: string): seq<string> { if p in t then Pieces(t[p]) else [p] }

  function Expander(t: Acronyms): string -> seq<string> { (p: string) => Expansion(t, p) }

  function Expand(t: Acronyms, parts: seq<string>): seq<string> { FlatMap(Expander(t), parts) }

  lemma ExpandOfFirst(t: Acronyms, parts: seq<string>)
    requires parts != []
    ensures Expand(t, parts) == Expansion(t, parts[0]) + Expand(t, parts[1..])
  {
  }

  function Expanded(t: Acronyms, name: string): seq<string> { Expand(t, Split('_', name)) }

  lemma ExpansionSpells(t: Acronyms, p: string)
    requires IsReadableTable(t) && IsPart(p)
    ensures Expansion(t, p) != [] && AllParts(Expansion(t, p)) && Glue(map[], Expansion(t, p)) == PartName(t, p)
  {
    if p in t {
      PiecesSpell(t[p]);
    } else {
      GlueOfNext(map[], [], p);
      assert [] + [p] == [p];
    }
  }

  lemma {:induction false} ExpandSpells(t: Acronyms, parts: seq<string>)
    requires IsReadableTable(t) && AllParts(parts)
    ensures AllParts(Expand(t, parts)) && Glue(map[], Expand(t, parts)) == Glue(t, parts)
  {
    if parts != [] {
      ExpansionSpells(t, parts[0]);
      ExpandSpells(t, parts[1..]);
      FlatMapAppend(Namer(map[]), Expansion(t, parts[0]), Expand(t, parts[1..]));
      ExpandOfFirst(t, parts);
      GlueOfFirst(t, parts);
    }
  }

  predicate StartsPart(s: string) { s == "" || IsUpper(s[0]) }

  lemma GlueStartsPart(parts: seq<string>)
    requires AllParts(parts)
    ensures StartsPart(Glue(map[], parts)) && (parts != [] ==> Glue(map[], parts) != "")
  {
    if parts != [] { CapitalizedShape(parts[0]); GlueOfFirst(map[], parts); }
  }

  lemma CutAt(x: string, r: string, y: string, s: string)
    requires x + r == y + s && |x| < |y|
    ensures r != "" && y[|x|] == r[0]
  {
    assert (x + r)[|x|] == (y + s)[|x|];
  }

  /** Where the next part starts is visible: a capitalised part never continues past another. */
  lemma NotLonger(p: string, q: string, r: string, s: string)
    requires IsPart(p) && IsPart(q) && StartsPart(r) && Capitalize(p) + r == Capitalize(q) + s
    ensures |q| <= |p|
  {
    CapitalizedShape(p);
    CapitalizedShape(q);
    if |p| < |q| { CutAt(Capitalize(p), r, Capitalize(q), s); }
  }

  /** Without a table, parts of any length are told apart. */
  lemma {:induction false} GlueIsInjective(a: seq<string>, b: seq<string>)
    requires AllParts(a) && AllParts(b) && Glue(map[], a) == Glue(map[], b)
    ensures a == b
  {
    GlueStartsPart(a);
    GlueStartsPart(b);
    if a != [] && b != [] {
      var x, y, r, s := Capitalize(a[0]), Capitalize(b[0]), Glue(map[], a[1..]), Glue(map[], b[1..]);
      GlueOfFirst(map[], a);
      GlueOfFirst(map[], b);
      GlueStartsPart(a[1..]);
      GlueStartsPart(b[1..]);
      NotLonger(a[0], b[0], r, s);
      NotLonger(b[0], a[0], s, r);
      CapitalizedShape(a[0]);
      CapitalizedShape(b[0]);
      assert (x + r)[..|x|] == x && (y + s)[..|y|] == y;
      assert (x + r)[|x|..] == r && (y + s)[|y|..] == s;
      CapitalizeIsInjective(a[0], b[0]);
      GlueIsInjective(a[1..], b[1..]);
    }
  }

  lemma SameSuffix(x: string, y: string, suffix: string)
    ensures x + suffix == y + suffix <==> x == y
  {
    if x + suffix == y + suffix {
      assert (x + suffix)[..|x|] == x && (y + suffix)[..|y|] == y;
    }
  }

  /** Two method names get the same class name exactly when they are the same once their
      acronyms are written out in parts. */
  lemma ClassNamesEqualIff(t: Acronyms, a: string, b: string)
    requires IsReadableTable(t) && IsPlainName(a) && IsPlainName(b)
    ensures ClassName(t, a) == ClassName(t, b) <==> Expanded(t, a) == Expanded(t, b)
  {
    ExpandSpells(t, Split('_', a));
    ExpandSpells(t, Split('_', b));
    SameSuffix(Glue(t, Split('_', a)), Glue(t, Split('_', b)), "Params");
    if ClassName(t, a) == ClassName(t, b) { GlueIsInjective(Expanded(t, a), Expanded(t, b)); }
  }

  /* ---- names with longer parts ---- */

  /** Written out, an entry is the part itself or starts with a single letter. */
  predicate IsEntryClear(p: string, pieces: seq<string>) {
    pieces == [p] || (|pieces| >= 2 && |pieces[0]| == 1)
  }

  predicate SameStart(a: seq<string>, b: seq<string>) {
    |a| >= 2 && |b| >= 2 && a[0] == b[0] && a[1] == b[1]
  }

  /** And no two entries start with the same two pieces. */
  predicate IsClear(t: Acronyms) {
    && IsReadableTable(t) && (forall p | p in t :: IsEntryClear(p, Pieces(t[p])))
    && (forall p, q | p in t && q in t && SameStart(Pieces(t[p]), Pieces(t[q])) :: p == q)
  }

  predicate HasLongParts(parts: seq<string>) { forall p | p in parts :: |p| >= 2 }

  lemma ExpansionIsClear(t: Acronyms, p: string, q: string, r: seq<string>, s: seq<string>)
    requires IsClear(t) && |p| >= 2 && |q| >= 2 && Expansion(t, p) + r == Expansion(t, q) + s
    ensures p == q
  {
    var x, y := Expansion(t, p), Expansion(t, q);
    assert IsEntryClear(p, x) && IsEntryClear(q, y);
    assert (x + r)[0] == x[0] && (y + s)[0] == y[0];
    if |x| >= 2 && |y| >= 2 { assert (x + r)[1] == x[1] && (y + s)[1] == y[1]; }
  }

  lemma {:induction false} ExpandIsInjective(t: Acronyms, a: seq<string>, b: seq<string>)
    requires IsClear(t) && HasLongParts(a) && HasLongParts(b) && AllParts(a) && AllParts(b)
    requires Expand(t, a) == Expand(t, b)
    ensures a == b
  {
    if a != [] { ExpansionSpells(t, a[0]); ExpandOfFirst(t, a); }
    if b != [] { ExpansionSpells(t, b[0]); ExpandOfFirst(t, b); }
    if a != [] && b != [] {
      var x, y, r, s := Expansion(t, a[0]), Expansion(t, b[0]), Expand(t, a[1..]), Expand(t, b[1..]);
      ExpansionIsClear(t, a[0], b[0], r, s);
      assert (x + r)[|x|..] == r && (y + s)[|y|..] == s;
      ExpandIsInjective(t, a[1..], b[1..]);
    }
  }

  /** So names whose parts have two or more characters share a class name only when equal. */
  lemma NamesAreUnique(t: Acronyms, a: string, b: string)
    requires IsClear(t) && IsPlainName(a) && IsPlainName(b)
    requires HasLongParts(Split('_', a)) && HasLongParts(Split('_', b))
    ensures ClassName(t, a) == ClassName(t, b) <==> a == b
  {
    ClassNamesEqualIff(t, a, b);
    if Expanded(t, a) == Expanded(t, b) {
      ExpandIsInjective(t, Split('_', a), Split('_', b));
      SplitIsExact('_', a);
      SplitIsExact('_', b);
    }
  }

  /* ---- the repository's table ---- */

  /** The parts an entry is written out in. */
  function Spelling(p: string): seq<string> {
    match p
    case "mcp" => ["m", "c", "p"]
    case "oauth" => ["o", "auth"]
    case "api" => ["a", "p", "i"]
    case "url" => ["u", "r", "l"]
    case "gc" => ["g", "c"]
    case _ => [p]
  }

  lemma PiecesAre(x: string, parts: seq<string>)
    requires IsReadable(x) && AllParts(parts) && Glue(map[], parts) == x
    ensures Pieces(x) == parts
  {
    PiecesSpell(x);
    GlueIsInjective(Pieces(x), parts);
  }

  lemma GlueOfFew(p: string, q: string, r: string)
    ensures Glue(map[], [p]) == Capitalize(p) && Glue(map[], [p, q]) == Capitalize(p) + Capitalize(q)
    ensures Glue(map[], [p, q, r]) == Capitalize(p) + Capitalize(q) + Capitalize(r)
  {
    GlueOfNext(map[], [], p);
    GlueOfNext(map[], [p], q);
    GlueOfNext(map[], [p, q], r);
    assert [] + [p] == [p] && [p] + [q] == [p, q] && [p, q] + [r] == [p, q, r];
  }

  lemma SpellMcp()
    ensures Glue(map[], ["m", "c", "p"]) == "MCP"
  {
    GlueOfFew("m", "c", "p");
    assert Capitalize("m") == "M" && Capitalize("c") == "C" && Capitalize("p") == "P";
  }

  lemma SpellOauth()
    ensures Glue(map[], ["o", "auth"]) == "OAuth"
  {
    GlueOfFew("o", "auth", "");
    assert Capitalize("o") == "O" && Capitalize("auth") == "Auth";
  }

  lemma SpellApi()
    ensures Glue(map[], ["a", "p", "i"]) == "API"
  {
    GlueOfFew("a", "p", "i");
    assert Capitalize("a") == "A" && Capitalize("p") == "P" && Capitalize("i") == "I";
  }

  lemma SpellUrl()
    ensures Glue(map[], ["u", "r", "l"]) == "URL"
  {
    GlueOfFew("u", "r", "l");
    assert Capitalize("u") == "U" && Capitalize("r") == "R" && Capitalize("l") == "L";
  }

  lemma SpellGc()
    ensures Glue(map[], ["g", "c"]) == "GC"
  {
    GlueOfFew("g", "c", "");
    assert Capitalize("g") == "G" && Capitalize("c") == "C";
  }

  lemma SpellAce()
    ensures Glue(map[], ["ace"]) == "Ace"
  {
    GlueOfFew("ace", "", "");
    assert Capitalize("ace") == "Ace";
  }

  lemma SpellRebac()
    ensures Glue(map[], ["rebac"]) == "Rebac"
  {
    GlueOfFew("rebac", "", "");
    assert Capitalize("rebac") == "Rebac";
  }

  lemma RepositorySpelling(p: string)
    requires p in ACRONYM_MAP
    ensures Glue(map[], Spelling(p)) == ACRONYM_MAP[p]
  {
    match p
    case "mcp" => SpellMcp();
    case "oauth" => SpellOauth();
    case "api" => SpellApi();
    case "url" => SpellUrl();
    case "gc" => SpellGc();
    case "ace" => SpellAce();
    case _ => SpellRebac();
  }

  lemma RepositoryReadable(p: string)
    requires p in ACRONYM_MAP
    ensures IsReadable(ACRONYM_MAP[p])
  {
  }

  lemma RepositoryParts(p: string)
    requires p in ACRONYM_MAP
    ensures AllParts(Spelling(p)) && IsPart(p)
  {
  }

  lemma RepositoryStarts(p: string, q: string)
    requires p in ACRONYM_MAP && q in ACRONYM_MAP
    ensures IsEntryClear(p, Spelling(p)) && (SameStart(Spelling(p), Spelling(q)) ==> p == q)
  {
  }

  lemma RepositoryTableIsClear()
    ensures IsClear(ACRONYM_MAP) && forall p | p in ACRONYM_MAP :: Pieces(ACRONYM_MAP[p]) == Spelling(p)
  {
    forall p | p in ACRONYM_MAP
      ensures IsReadable(ACRONYM_MAP[p]) && Pieces(ACRONYM_MAP[p]) == Spelling(p) && IsEntryClear(p, Spelling(p))
    {
      RepositoryReadable(p);
      RepositoryParts(p);
      RepositorySpelling(p);
      PiecesAre(ACRONYM_MAP[p], Spelling(p));
      RepositoryStarts(p, p);
    }
    forall p, q | p in ACRONYM_MAP && q in ACRONYM_MAP && SameStart(Spelling(p), Spelling(q)) ensures p == q {
      RepositoryStarts(p, q);
    }
  }

  lemma PartsCollide(t: Acronyms, p: string, q: string, w: string, a: string, b: string)
    requires IsReadableTable(t) && IsPart(p) && IsPart(q) && IsPart(w) && p !in t && q !in t && w in t && Pieces(t[w]) == [p, q]
    requires Split('_', a) == [p, q] && Split('_', b) == [w]
    ensures a != b && ClassName(t, a) == ClassName(t, b)
  {
    ClassNamesEqualIff(t, a, b);
    ExpandOfFirst(t, [p, q]);
    ExpandOfFirst(t, [p, q][1..]);
    ExpandOfFirst(t, [w]);
    assert [p] + ([q] + []) == [p, q];
  }

  lemma SplitOfTwo(p: string, q: string)
    requires '_' !in p && '_' !in q
    ensures Split('_', p) == [p] && Split('_', p + ['_'] + q) == [p, q]
  {
    SplitIsExact('_', p);
    SplitIsExact('_', q);
    SplitOfJoined('_', p, q);
  }

  lemma OAuthEntry() returns (p: string, q: string, w: string)
    ensures p == "o" && q == "auth" && w == "oauth"
    ensures p !in ACRONYM_MAP && q !in ACRONYM_MAP && w in ACRONYM_MAP && Pieces(ACRONYM_MAP[w]) == [p, q]
    ensures IsPart(p) && IsPart(q) && IsPart(w)
  {
    p, q, w := "o", "auth", "oauth";
    RepositoryParts(w);
    assert Spelling(w) == [p, q] && p in Spelling(w) && q in Spelling(w);
    RepositoryReadable(w);
    RepositorySpelling(w);
    PiecesAre(ACRONYM_MAP[w], Spelling(w));
  }

  /** One-letter parts can collide with an acronym: o_auth and oauth share a class name. */
  lemma ShortPartsCollide() returns (p: string, q: string, w: string)
    ensures p == "o" && q == "auth" && w == "oauth"
    ensures p + ['_'] + q != w && ClassName(ACRONYM_MAP, p + ['_'] + q) == ClassName(ACRONYM_MAP, w)
  {
    p, q, w := OAuthEntry();
    SplitOfTwo(p, q);
    SplitOfTwo(w, q);
    forall k | k in ACRONYM_MAP ensures IsReadable(ACRONYM_MAP[k]) { RepositoryReadable(k); }
    PartsCollide(ACRONYM_MAP, p, q, w, p + ['_'] + q, w);
  }

  /** A name of two parts, as in the generator's own examples. */
  lemma NameOfTwo(t: Acronyms, p: string, q: string)
    requires '_' !in p && '_' !in q
    ensures ClassName(t, p + "_" + q) == PartName(t, p) + PartName(t, q) + "Params"
  {
    SplitOfTwo(p, q);
    GlueOfFirst(t, [p, q]);
    GlueOfFirst(t, [q]);
    assert [p, q][1..] == [q] && [q][1..] == [];
  }
}
