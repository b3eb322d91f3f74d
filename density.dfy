/** The glyph density table: every character of the active character set with
    its density (the mean luminance of the glyph rendered on its own), sorted
    ascending by density with ties left in character-set order. */
module Density {

  /** One entry of the table. */
  datatype Glyph = Glyph(ch: char, density: real)

  /** The built-in character sets and the custom one typed by the user. */
  datatype Preset = Standard | StandardExtended | SuperExtended | Blocks | Threshold | Binary | Custom

  function PresetChars(p: Preset): (chars: string)
    requires p != Custom
    ensures chars != ""
  {
    match p
    case Standard => "@%#*+=-:. "
    case StandardExtended => "$@B%8&WM#*oahkbdpqwmZO0QLCJUYXzcvunxrjft/\\|()1{}[]?-_+~<>i!l"
      + "I;:,\"^`'. "
    case SuperExtended => "abcdefghijklmnopqrstuvwxyzABCDEFGHIJKLMNOPQRSTUVWXYZ0123456789 "
      + "`¬!\"£$%^&*()_+-=[];'#:@~,./<>?\\|¯…†‡‰™¥©§¦®°±µ¶»¼½¿¡─━│┃┄"
      + "┅┆┇┈┉┊┋┌┍┎┏┐┑┒┓└┕┖┗┘┙┚┛├┝┞┟┠┡┢┣┤┥┦┧┨┩┪┫┬┭┮┯┰┱┲┳┴┵┶┷┸┹┺┻┼┽┾┿╀"
      + "╁╂╃╄╅╆╇╈╉╊╋╌╍╎╏═║╒╓╔╕╖╗╘╙╚╛╜╝╞╟╠╡╢╣╤╥╦╧╨╩╪╫╬╭╮╯╰╱╲╳▀ "
      + "▂▃▄▅▆▇█▉▊▋▌▍▎▏▖▗▘▙▚▛▜▝▞▟░▒▓"
    case Blocks => "█▓▒░ "
    case Threshold => "█ "
    case Binary => "01 "
  }

  /** The super-extended preset holds the space twice, after "9" and after
      "▀", so its table has two entries for it. */
  lemma SuperExtendedRepeatsSpace()
    ensures |PresetChars(SuperExtended)| > 232
    ensures PresetChars(SuperExtended)[62] == ' ' == PresetChars(SuperExtended)[232]
  {
  }

  /** The character set used when the active one is empty. */
  const Fallback: string := "@# "

  /** The character set a generation analyses: the preset's characters or the
      custom text, replaced by the fallback when that is empty. */
  function ActiveCharSet(preset: Preset, customChars: string): (cs: string)
    ensures cs != ""
    ensures preset == Custom && customChars == "" ==> cs == Fallback
    ensures preset == Custom && customChars != "" ==> cs == customChars
    ensures preset != Custom ==> cs == PresetChars(preset)
  {
    var charSet := if preset == Custom then customChars else PresetChars(preset);
    if charSet == "" then Fallback else charSet
  }

  /** The unsorted entries, one per character, in character-set order. */
  function Entries(chars: string, density: char -> real): (e: seq<Glyph>)
    ensures |e| == |chars|
    ensures forall g :: g in e ==> g.ch in chars && g.density == density(g.ch)
    ensures forall c :: c in chars ==> Glyph(c, density(c)) in e
  {
    var e := seq(|chars|, i requires 0 <= i < |chars| => Glyph(chars[i], density(chars[i])));
    assert forall i :: 0 <= i < |chars| ==> e[i] == Glyph(chars[i], density(chars[i])) && e[i] in e;
    e
  }

  predicate SortedByDensity(s: seq<Glyph>) {
    forall i, j :: 0 <= i < j < |s| ==> s[i].density <= s[j].density
  }

  /** The entries with density v, in the order they appear: two sequences with
      the same ties for every v are the same up to reordering entries of
      different density. */
  function Ties(s: seq<Glyph>, v: real): seq<Glyph> {
    if s == [] then []
    else (if s[0].density == v then [s[0]] else []) + Ties(s[1..], v)
  }

  /** Inserts g after every entry of density at most g's. */
  function InsertByDensity(g: Glyph, s: seq<Glyph>): (r: seq<Glyph>)
    ensures |r| == |s| + 1
  {
    if s == [] then [g]
    else if s[0].density <= g.density then [s[0]] + InsertByDensity(g, s[1..])
    else [g] + s
  }

  /** Stable ascending sort by density (insertion sort), standing for the host's
      Array.prototype.sort with comparator a.density - b.density. */
  function SortByDensity(s: seq<Glyph>): (r: seq<Glyph>)
    ensures |r| == |s|
  {
    if s == [] then []
    else InsertByDensity(s[|s| - 1], SortByDensity(s[..|s| - 1]))
  }

  lemma {:induction false} TiesAppend(a: seq<Glyph>, b: seq<Glyph>, v: real)
    ensures Ties(a + b, v) == Ties(a, v) + Ties(b, v)
  {
    if a == [] {
      assert a + b == b;
    } else {
      assert (a + b)[0] == a[0];
      assert (a + b)[1..] == a[1..] + b;
      TiesAppend(a[1..], b, v);
    }
  }

  lemma {:induction false} TiesNone(s: seq<Glyph>, v: real)
    requires forall i :: 0 <= i < |s| ==> s[i].density > v
    ensures Ties(s, v) == []
  {
    if s != [] {
      TiesNone(s[1..], v);
    }
  }

  lemma SortedByDensityTail(s: seq<Glyph>)
    requires SortedByDensity(s) && s != []
    ensures SortedByDensity(s[1..])
  {
    forall i, j | 0 <= i < j < |s[1..]| ensures s[1..][i].density <= s[1..][j].density {
      assert s[1..][i] == s[i + 1] && s[1..][j] == s[j + 1];
    }
  }

  lemma {:induction false} InsertByDensitySorted(g: Glyph, s: seq<Glyph>)
    requires SortedByDensity(s)
    ensures SortedByDensity(InsertByDensity(g, s))
    ensures forall i :: 0 <= i < |InsertByDensity(g, s)| ==>
              InsertByDensity(g, s)[i] == g || InsertByDensity(g, s)[i] in s
  {
    if s != [] && s[0].density <= g.density {
      SortedByDensityTail(s);
      InsertByDensitySorted(g, s[1..]);
      var r := [s[0]] + InsertByDensity(g, s[1..]);
      forall i | 0 < i < |r| ensures r[0].density <= r[i].density {
        assert r[i] == g || r[i] in s[1..];
      }
    }
  }

  lemma {:induction false} InsertByDensityPermutes(g: Glyph, s: seq<Glyph>)
    ensures multiset(InsertByDensity(g, s)) == multiset(s) + multiset{g}
  {
    if s != [] && s[0].density <= g.density {
      InsertByDensityPermutes(g, s[1..]);
      assert s == [s[0]] + s[1..];
    }
  }

  /** Inserting g adds g at the end of its own ties and changes no other ties. */
  lemma {:induction false} InsertByDensityTies(g: Glyph, s: seq<Glyph>, v: real)
    requires SortedByDensity(s)
    ensures Ties(InsertByDensity(g, s), v) == Ties(s, v) + (if g.density == v then [g] else [])
    decreases |s|, 1
  {
    if s == [] {
      assert Ties([g], v) == (if g.density == v then [g] else []) + Ties([], v);
    } else if s[0].density <= g.density {
      InsertPastHeadTies(g, s, v);
    } else {
      InsertAtHeadTies(g, s, v);
    }
  }

  lemma {:induction false} InsertPastHeadTies(g: Glyph, s: seq<Glyph>, v: real)
    requires SortedByDensity(s) && s != [] && s[0].density <= g.density
    ensures Ties(InsertByDensity(g, s), v) == Ties(s, v) + (if g.density == v then [g] else [])
    decreases |s|, 0
  {
    var rest := InsertByDensity(g, s[1..]);
    var head := if s[0].density == v then [s[0]] else [];
    var mine := if g.density == v then [g] else [];
    SortedByDensityTail(s);
    InsertByDensityTies(g, s[1..], v);
    assert Ties(rest, v) == Ties(s[1..], v) + mine;
    assert Ties(s, v) == head + Ties(s[1..], v);
    assert InsertByDensity(g, s) == [s[0]] + rest;
    assert ([s[0]] + rest)[0] == s[0] && ([s[0]] + rest)[1..] == rest;
    assert Ties([s[0]] + rest, v) == head + Ties(rest, v);
  }

  lemma InsertAtHeadTies(g: Glyph, s: seq<Glyph>, v: real)
    requires SortedByDensity(s) && s != [] && s[0].density > g.density
    ensures Ties(InsertByDensity(g, s), v) == Ties(s, v) + (if g.density == v then [g] else [])
  {
    TiesAppend([g], s, v);
    assert InsertByDensity(g, s) == [g] + s;
    assert Ties([g], v) == (if g.density == v then [g] else []) + Ties([], v);
    if g.density == v {
      TiesNone(s, v);
    }
  }

  /** The sort orders by density, keeps every entry, and keeps entries of equal
      density in their original order. */
  lemma {:induction false} SortByDensityIsStableSort(s: seq<Glyph>)
    ensures SortedByDensity(SortByDensity(s))
    ensures multiset(SortByDensity(s)) == multiset(s)
    ensures forall v :: Ties(SortByDensity(s), v) == Ties(s, v)
  {
    if s != [] {
      var p, g := s[..|s| - 1], s[|s| - 1];
      assert s == p + [g];
      SortByDensityIsStableSort(p);
      InsertByDensitySorted(g, SortByDensity(p));
      InsertByDensityPermutes(g, SortByDensity(p));
      forall v ensures Ties(SortByDensity(s), v) == Ties(s, v) {
        InsertByDensityTies(g, SortByDensity(p), v);
        TiesAppend(p, [g], v);
      }
    }
  }

  /** The density profiler: one entry per character, pushed in character-set
      order, then sorted. The densities themselves come from rasterising each
      glyph, and are a parameter here. */
  method AnalyzeCharacters(charStr: string, density: char -> real) returns (table: seq<Glyph>)
    ensures |table| == |charStr|
    ensures SortedByDensity(table)
    ensures multiset(table) == multiset(Entries(charStr, density))
    ensures forall v :: Ties(table, v) == Ties(Entries(charStr, density), v)
    ensures forall g :: g in table ==> g.ch in charStr && g.density == density(g.ch)
  {
    var results: seq<Glyph> := [];
    for i := 0 to |charStr|
      invariant results == Entries(charStr[..i], density)
    {
      results := results + [Glyph(charStr[i], density(charStr[i]))];
    }
    assert charStr[..|charStr|] == charStr;
    table := SortByDensity(results);
    SortByDensityIsStableSort(results);
    forall g | g in table ensures g.ch in charStr && g.density == density(g.ch) {
      assert g in multiset(results);
    }
  }
}
