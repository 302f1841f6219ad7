/** 8.3 names of src/fs/fat32.c: the eleven bytes a directory entry stores and the name
    that is shown for them. */
module Names {
  import opened Common

  const BLANK := ' '
  const DOT := '.'

  predicate Letter(c: char) { 'a' <= c <= 'z' || 'A' <= c <= 'Z' }

  function Up(c: char): char { if 'a' <= c <= 'z' then (c as int - 32) as char else c }

  function Down(c: char): char { if 'A' <= c <= 'Z' then (c as int + 32) as char else c }

  predicate Allowed(c: char) {
    Letter(c) || '0' <= c <= '9' || c == '_' || c == '-' || c == '$' || c == '~'
  }

  function Lower(s: string): (r: string)
    ensures |r| == |s|
  {
    if s == [] then [] else [Down(s[0])] + Lower(s[1..])
  }

  function Upper(s: string): (r: string)
    ensures |r| == |s|
  {
    if s == [] then [] else [Up(s[0])] + Upper(s[1..])
  }

  lemma {:induction false} UpperAt(s: string)
    ensures forall i :: 0 <= i < |s| ==> Upper(s)[i] == Up(s[i])
  {
    if s != [] { UpperAt(s[1..]); }
  }

  lemma {:induction false} LowerAt(s: string)
    ensures forall i :: 0 <= i < |s| ==> Lower(s)[i] == Down(s[i])
  {
    if s != [] { LowerAt(s[1..]); }
  }

  function Main(s: string): string { s[..First(s, DOT)] }

  function Ext(s: string): string { if First(s, DOT) < |s| then s[First(s, DOT) + 1..] else [] }

  predicate AllAllowed(s: string) { forall i :: 0 <= i < |s| ==> Allowed(s[i]) }

  /** One to eight allowed characters, and up to three more behind a dot. */
  predicate Accepted(name: string) {
    0 < |Main(name)| <= 8 && |Ext(name)| <= 3 && AllAllowed(Main(name)) && AllAllowed(Ext(name))
  }

  function Padded(s: string, n: nat): (r: string)
    requires |s| <= n
    ensures |r| == n && forall i :: 0 <= i < n ==> r[i] == if i < |s| then s[i] else BLANK
    decreases n - |s|
  {
    if |s| == n then s else Padded(s + [BLANK], n)
  }

  function Short(name: string): (r: string)
    requires Accepted(name)
    ensures |r| == 11
  {
    Padded(Upper(Main(name)), 8) + Padded(Upper(Ext(name)), 3)
  }

  /** The characters still to come, with what has been stored of the name and the
      extension. */
  function Go(rest: string, main: string, ext: string, seenDot: bool): Option<(string, string)>
    decreases |rest|
  {
    if rest == [] then (if main == [] then None else Some((main, ext)))
    else if rest[0] == DOT then (if seenDot || main == [] then None else Go(rest[1..], main, ext, true))
    else if !Allowed(rest[0]) then None
    else if !seenDot then (if |main| >= 8 then None else Go(rest[1..], main + [Up(rest[0])], ext, false))
    else if |ext| >= 3 then None
    else Go(rest[1..], main, ext + [Up(rest[0])], true)
  }

  lemma {:induction false} GoExt(rest: string, main: string, ext: string)
    requires main != [] && |ext| <= 3
    ensures Go(rest, main, ext, true) ==
      if AllAllowed(rest) && |ext| + |rest| <= 3 then Some((main, ext + Upper(rest))) else None
    decreases |rest|
  {
    hide Allowed, Up, AllAllowed;
    if rest == [] {
      AllowedNone();
      assert ext + Upper(rest) == ext;
    } else {
      AllowedStep(rest);
      if rest[0] != DOT && Allowed(rest[0]) && |ext| < 3 {
        GoExt(rest[1..], main, ext + [Up(rest[0])]);
        Regroup(ext, Up(rest[0]), Upper(rest[1..]));
      }
    }
  }

  lemma Regroup(a: string, c: char, b: string)
    ensures a + [c] + b == a + ([c] + b)
  {
  }

  lemma AllowedNone()
    ensures AllAllowed("")
  {
  }

  lemma AllowedStep(s: string)
    requires s != []
    ensures AllAllowed(s) <==> s[0] != DOT && Allowed(s[0]) && AllAllowed(s[1..])
  {
    assert s == [s[0]] + s[1..];
  }

  lemma MainStep(s: string)
    ensures s == [] ==> Main(s) == [] && Ext(s) == []
    ensures s != [] && s[0] == DOT ==> Main(s) == [] && Ext(s) == s[1..]
    ensures s != [] && s[0] != DOT ==> Main(s) == [s[0]] + Main(s[1..]) && Ext(s) == Ext(s[1..])
  {
  }

  lemma {:induction false} GoMain(rest: string, main: string)
    requires |main| <= 8
    ensures Go(rest, main, "", false) ==
      if AllAllowed(Main(rest)) && 0 < |main| + |Main(rest)| <= 8 && AllAllowed(Ext(rest)) && |Ext(rest)| <= 3
      then Some((main + Upper(Main(rest)), Upper(Ext(rest)))) else None
    decreases |rest|
  {
    hide Allowed, Up, AllAllowed, Main, Ext;
    MainStep(rest);
    AllowedNone();
    if rest == [] {
      assert main + Upper(Main(rest)) == main && Upper(Ext(rest)) == [];
    } else if rest[0] == DOT {
      assert main + Upper([]) == main && "" + Upper(rest[1..]) == Upper(rest[1..]);
      if main != [] { GoExt(rest[1..], main, ""); }
    } else {
      var r := rest[1..];
      AllowedStep(Main(rest));
      assert Main(rest)[1..] == Main(r);
      if Allowed(rest[0]) && |main| < 8 {
        GoMain(r, main + [Up(rest[0])]);
        Regroup(main, Up(rest[0]), Upper(Main(r)));
      }
    }
  }

  /** fat32_make_short_name. */
  method MakeShort(name: string) returns (r: Option<string>)
    ensures r.Some? <==> Accepted(name)
    ensures r.Some? ==> r.value == Short(name)
  {
    GoMain(name, "");
    assert "" + Upper(Main(name)) == Upper(Main(name));
    if |name| == 0 || |name| > 255 || name == "." || name == ".." {
      TooLong(name);
      return None;
    }
    hide Main, Ext, Accepted;
    var main, ext := "", "";
    var seenDot := false;
    for i := 0 to |name|
      invariant Go(name[i..], main, ext, seenDot) == Go(name, "", "", false)
      invariant |main| <= 8 && |ext| <= 3 && (i > 0 || seenDot ==> main != [])
    {
      var c := name[i];
      if c == DOT {
        if seenDot || i == 0 { return None; }
        seenDot := true;
      } else {
        if !Allowed(c) { return None; }
        if !seenDot {
          if |main| >= 8 { return None; }
          main := main + [Up(c)];
        } else {
          if |ext| >= 3 { return None; }
          ext := ext + [Up(c)];
        }
      }
    }
    r := Some(Padded(main, 8) + Padded(ext, 3));
  }

  lemma TooLong(name: string)
    ensures Accepted(name) ==> 0 < |name| <= 12 && name != "." && name != ".."
  {
  }

  // ------------------------------------------------------------- the name shown

  /** The characters up to the first blank or zero. */
  function Word(s: string): (r: string)
    ensures |r| <= |s|
  {
    if s == [] || s[0] == BLANK || s[0] == 0 as char then [] else [s[0]] + Word(s[1..])
  }

  function Shown(entry: string): string
    requires |entry| == 11
  {
    Lower(Word(entry[..8]) + if Word(entry[8..]) == [] then [] else [DOT] + Word(entry[8..]))
  }

  /** fat32_format_filename. */
  method FormatName(entry: string) returns (name: string)
    requires |entry| == 11
    ensures name == Shown(entry)
  {
    hide Lower;
    name := CopyWord(entry[..8]);
    if entry[8] != BLANK && entry[8] != 0 as char {
      var ext := CopyWord(entry[8..]);
      name := name + ([DOT] + ext);
    } else {
      assert name + [] == name;
    }
    name := ToLower(name);
  }

  method CopyWord(s: string) returns (w: string)
    ensures w == Word(s)
  {
    var i := 0;
    w := "";
    while i < |s| && s[i] != BLANK && s[i] != 0 as char
      invariant 0 <= i <= |s| && w + Word(s[i..]) == Word(s)
    {
      assert s[i..][1..] == s[i + 1..];
      w := w + [s[i]];
      i := i + 1;
    }
  }

  method ToLower(s: string) returns (r: string)
    ensures r == Lower(s)
  {
    r := s;
    for k := 0 to |s|
      invariant |r| == |s| && forall i :: 0 <= i < |s| ==> r[i] == if i < k then Down(s[i]) else s[i]
    {
      if 'A' <= r[k] <= 'Z' { r := r[k := (r[k] as int + 32) as char]; }
    }
    LowerAt(s);
  }

  function Undotted(s: string): string { if s != [] && s[|s| - 1] == DOT then s[..|s| - 1] else s }

  lemma {:induction false} WordPadded(s: string, n: nat)
    requires |s| <= n && AllAllowed(s)
    ensures Word(Padded(Upper(s), n)) == Upper(s)
  {
    UpperAt(s);
    WordPrefix(Upper(s), Padded(Upper(s), n));
  }

  lemma {:induction false} WordPrefix(s: string, t: string)
    requires |s| <= |t| && forall i :: 0 <= i < |t| ==> t[i] == if i < |s| then s[i] else BLANK
    requires forall i :: 0 <= i < |s| ==> s[i] != BLANK && s[i] != 0 as char
    ensures Word(t) == s
  {
    if s != [] { WordPrefix(s[1..], t[1..]); }
  }

  /** The name shown for an entry is the name it was made from in lower case, without a
      dot at the end. */
  lemma ShownIsName(name: string)
    requires Accepted(name)
    ensures Shown(Short(name)) == Lower(Undotted(name))
  {
    var m, e := Main(name), Ext(name);
    WordPadded(m, 8);
    WordPadded(e, 3);
    var entry := Short(name);
    assert entry[..8] == Padded(Upper(m), 8) && entry[8..] == Padded(Upper(e), 3);
    NameParts(name);
    LowerUpper(m, e);
  }

  lemma LowerUpper(m: string, e: string)
    ensures Lower(Upper(m) + []) == Lower(m)
    ensures Lower(Upper(m) + ([DOT] + Upper(e))) == Lower(m + [DOT] + e)
  {
    UpperAt(m);
    UpperAt(e);
    LowerAt(m);
    LowerAt(Upper(m) + []);
    LowerAt(m + [DOT] + e);
    LowerAt(Upper(m) + ([DOT] + Upper(e)));
  }

  lemma NameParts(name: string)
    requires Accepted(name)
    ensures Undotted(name) == if Ext(name) == [] then Main(name) else Main(name) + [DOT] + Ext(name)
  {
    var d := First(name, DOT);
    if d < |name| { assert name == Main(name) + [DOT] + Ext(name); }
    if Ext(name) != [] { assert name[|name| - 1] == Ext(name)[|Ext(name)| - 1]; }
  }

  lemma UpDown(c: char)
    ensures !('a' <= Up(c) <= 'z') && Down(Up(c)) == Down(c)
  {
  }

  lemma ShortAt(name: string, i: nat)
    requires Accepted(name) && i < 11
    ensures i < 8 ==> Short(name)[i] == if i < |Main(name)| then Up(Main(name)[i]) else BLANK
    ensures i >= 8 ==> Short(name)[i] == if i - 8 < |Ext(name)| then Up(Ext(name)[i - 8]) else BLANK
  {
    hide Up, Main, Ext, Padded, AllAllowed;
    UpperAt(Main(name));
    UpperAt(Ext(name));
  }

  /** The eleven bytes of an accepted name: the main part in capitals from byte 0 on, what
      follows the dot in capitals from byte 8 on, and blanks. */
  lemma ShortBytes(name: string, i: nat)
    requires Accepted(name) && i < 11
    ensures !('a' <= Short(name)[i] <= 'z')
    ensures var d := First(name, DOT);
      && (i < 8 ==> if i < d then Down(Short(name)[i]) == Down(name[i]) else Short(name)[i] == ' ')
      && (i >= 8 ==> if d + 1 + (i - 8) < |name| then Down(Short(name)[i]) == Down(name[d + 1 + (i - 8)])
                     else Short(name)[i] == ' ')
  {
    hide Short, Accepted, First, Up, Down;
    ShortAt(name, i);
    var d := First(name, DOT);
    if i < 8 {
      if i < d { UpDown(name[i]); }
    } else if d + 1 + (i - 8) < |name| {
      UpDown(name[d + 1 + (i - 8)]);
    }
  }
}
