/** Splitting a string at a separator character and joining the pieces again. */
module Text {
  /** The pieces between separators; never empty. */
  function Split(sep: char, s: string): (fields: seq<string>)
    ensures fields != []
  {
    if s == "" then [""] else Push(sep, s[0], Split(sep, s[1..]))
  }

  /** The fields after one more character in front. */
  function Push(sep: char, c: char, fields: seq<string>): (longer: seq<string>)
    requires fields != []
    ensures longer != []
  {
    if c == sep then [""] + fields else [[c] + fields[0]] + fields[1..]
  }

  function Join(sep: char, fields: seq<string>): string
    requires fields != []
  {
    if |fields| == 1 then fields[0] else fields[0] + [sep] + Join(sep, fields[1..])
  }

  /** The string without its separators, SQL's REPLACE(s, sep, ''). */
  function Removed(sep: char, s: string): string {
    if s == "" then "" else (if s[0] == sep then "" else [s[0]]) + Removed(sep, s[1..])
  }

  function Count(sep: char, s: string): int { |s| - |Removed(sep, s)| }

  lemma JoinOfPushed(sep: char, c: char, fields: seq<string>)
    requires fields != []
    ensures Join(sep, Push(sep, c, fields)) == [c] + Join(sep, fields)
  {
    var longer := Push(sep, c, fields);
    if c == sep { assert longer[1..] == fields; } else { assert longer[1..] == fields[1..]; }
  }

  /** A string splits into one field more than it has separators, no field has one, and joining
      the fields gives the string back. */
  lemma {:induction false} SplitIsExact(sep: char, s: string)
    ensures |Split(sep, s)| == Count(sep, s) + 1 && Join(sep, Split(sep, s)) == s
    ensures forall i | 0 <= i < |Split(sep, s)| :: sep !in Split(sep, s)[i]
    ensures sep !in s <==> |Split(sep, s)| == 1
  {
    if s != "" {
      SplitIsExact(sep, s[1..]);
      JoinOfPushed(sep, s[0], Split(sep, s[1..]));
      assert s == [s[0]] + s[1..];
    }
  }

  lemma SplitOfCons(sep: char, c: char, s: string)
    ensures Split(sep, [c] + s) == Push(sep, c, Split(sep, s))
  {
    assert ([c] + s)[1..] == s;
  }

  lemma PushOfAppended(sep: char, c: char, r: seq<string>, t: seq<string>)
    requires r != []
    ensures Push(sep, c, r + t) == Push(sep, c, r) + t
  {
  }

  lemma {:induction false} SplitOfJoined(sep: char, a: string, b: string)
    ensures Split(sep, a + [sep] + b) == Split(sep, a) + Split(sep, b)
  {
    if a == "" {
      assert a + [sep] + b == [sep] + b;
      SplitOfCons(sep, sep, b);
    } else {
      var rest := a[1..] + [sep] + b;
      SplitOfJoined(sep, a[1..], b);
      assert a + [sep] + b == [a[0]] + rest;
      SplitOfCons(sep, a[0], rest);
      PushOfAppended(sep, a[0], Split(sep, a[1..]), Split(sep, b));
    }
  }
}
