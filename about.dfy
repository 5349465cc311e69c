/** The detail screen's normalisation helpers: flattening the type list,
    formatting the display name and looking up type plates. */
module About {
  import opened Wrappers
  import Strings
  import opened TypePlates

  /** `{ name }`, a named reference to an API resource. */
  datatype NamedResource = NamedResource(name: string)

  /** One element of the raw `types` array: `{ type: { name } }`. */
  datatype TypeSlot = TypeSlot(kind: NamedResource)

  /** `typeFormat`: the type names, in the order of the raw array. */
  function TypeFormat(types: seq<TypeSlot>): (names: seq<string>)
    ensures |names| == |types|
    ensures forall i :: 0 <= i < |types| ==> names[i] == types[i].kind.name
  {
    if types == [] then [] else [types[0].kind.name] + TypeFormat(types[1..])
  }

  /** `typeFormat([])` is `[]`, and flattening distributes over concatenation. */
  lemma TypeFormatAppend(a: seq<TypeSlot>, b: seq<TypeSlot>)
    ensures TypeFormat([]) == []
    ensures TypeFormat(a + b) == TypeFormat(a) + TypeFormat(b)
  {
    assert TypeFormat(a + b) == TypeFormat(a) + TypeFormat(b) by {
      var l, r := TypeFormat(a + b), TypeFormat(a) + TypeFormat(b);
      forall i | 0 <= i < |l| ensures l[i] == r[i] {
        if i < |a| {
          assert (a + b)[i] == a[i];
        } else {
          assert (a + b)[i] == b[i - |a|];
        }
      }
    }
  }

  /** `typeFormat(poke.types)[0]`, the type that picks the button colour;
      `undefined` when the record has no types. */
  function PrimaryType(types: seq<TypeSlot>): (primary: Option<string>)
    ensures primary.Some? <==> |types| > 0
    ensures primary.Some? ==> primary.value == types[0].kind.name
  {
    var names := TypeFormat(types);
    if |names| == 0 then None else Some(names[0])
  }

  /** `toUpperCase` on one character, for the ASCII letters. */
  function Upper(c: char): char
  {
    if 'a' <= c <= 'z' then (c as int - 32) as char else c
  }

  /** `word.charAt(0).toUpperCase() + word.slice(1)`; the empty word stays empty. */
  function Capitalize(word: string): string
  {
    if word == [] then [] else [Upper(word[0])] + word[1..]
  }

  /** `words.map(Capitalize)`. */
  function CapitalizeAll(words: seq<string>): seq<string>
  {
    seq(|words|, i requires 0 <= i < |words| => Capitalize(words[i]))
  }

  lemma CapitalizeAllCons(w: string, ws: seq<string>)
    ensures CapitalizeAll([w] + ws) == [Capitalize(w)] + CapitalizeAll(ws)
  {
    assert forall i :: 1 <= i <= |ws| ==> ([w] + ws)[i] == ws[i - 1];
  }

  /** The display name:
      `name.split("-").map(Capitalize).join(" ")`. */
  function DisplayName(name: string): string
  {
    Strings.Join(CapitalizeAll(Strings.Split(name, '-')), " ")
  }

  /** A character-by-character reference for the display name: a `-` becomes a
      space, the first character of each word is upper-cased, the rest stay. */
  function TitleFrom(s: string, atWordStart: bool): (t: string)
    ensures |t| == |s|
    decreases |s|
  {
    if s == [] then []
    else
      [if s[0] == '-' then ' ' else if atWordStart then Upper(s[0]) else s[0]] +
      TitleFrom(s[1..], s[0] == '-')
  }

  /** The split/map/join chain agrees with the character-by-character
      reference, once the first piece is capitalised or not as `atWordStart` says. */
  lemma {:induction false} JoinedWordsAreTitle(s: string, atWordStart: bool)
    ensures var words := Strings.Split(s, '-');
            Strings.Join([if atWordStart then Capitalize(words[0]) else words[0]] +
                         CapitalizeAll(words[1..]), " ")
            == TitleFrom(s, atWordStart)
    decreases |s|
  {
    if s != [] {
      var t := s[1..];
      var rest := Strings.Split(t, '-');
      CapitalizeAllCons(rest[0], rest[1..]);
      assert [rest[0]] + rest[1..] == rest;
      if s[0] == '-' {
        JoinedWordsAreTitle(t, true);
        HyphenStartsWord(s, atWordStart);
      } else {
        JoinedWordsAreTitle(t, false);
        var x := if atWordStart then Upper(s[0]) else s[0];
        Strings.JoinConsFirst(x, rest[0], CapitalizeAll(rest[1..]), " ");
        LetterContinuesWord(s, atWordStart);
      }
    }
  }

  /** A leading `-` closes an empty first piece, which is shown as one space. */
  lemma HyphenStartsWord(s: string, atWordStart: bool)
    requires s != [] && s[0] == '-'
    requires var rest := Strings.Split(s[1..], '-');
             Strings.Join(CapitalizeAll(rest), " ") == TitleFrom(s[1..], true)
    ensures var words := Strings.Split(s, '-');
            Strings.Join([if atWordStart then Capitalize(words[0]) else words[0]] +
                         CapitalizeAll(words[1..]), " ")
            == TitleFrom(s, atWordStart)
  {
    var rest := Strings.Split(s[1..], '-');
    var words := Strings.Split(s, '-');
    assert words[0] == "" && words[1..] == rest;
    Strings.JoinCons("", CapitalizeAll(rest), " ");
  }

  /** A leading non-separator character starts the first piece. */
  lemma LetterContinuesWord(s: string, atWordStart: bool)
    requires s != [] && s[0] != '-'
    requires var rest := Strings.Split(s[1..], '-');
             Strings.Join([rest[0]] + CapitalizeAll(rest[1..]), " ") == TitleFrom(s[1..], false)
    requires var rest := Strings.Split(s[1..], '-');
             var x := if atWordStart then Upper(s[0]) else s[0];
             Strings.Join([[x] + rest[0]] + CapitalizeAll(rest[1..]), " ") ==
             [x] + Strings.Join([rest[0]] + CapitalizeAll(rest[1..]), " ")
    ensures var words := Strings.Split(s, '-');
            Strings.Join([if atWordStart then Capitalize(words[0]) else words[0]] +
                         CapitalizeAll(words[1..]), " ")
            == TitleFrom(s, atWordStart)
  {
    var rest := Strings.Split(s[1..], '-');
    var words := Strings.Split(s, '-');
    assert words[0] == [s[0]] + rest[0] && words[1..] == rest[1..];
  }

  /** The display name is the character-by-character reference from the start
      of a word. */
  lemma DisplayNameIsTitle(name: string)
    ensures DisplayName(name) == TitleFrom(name, true)
  {
    JoinedWordsAreTitle(name, true);
    var words := Strings.Split(name, '-');
    CapitalizeAllCons(words[0], words[1..]);
    assert [words[0]] + words[1..] == words;
  }

  /** The reference, one position at a time. */
  lemma {:induction false} TitleFromAt(s: string, atWordStart: bool, i: nat)
    requires i < |s|
    ensures TitleFrom(s, atWordStart)[i] ==
            if s[i] == '-' then ' '
            else if (if i == 0 then atWordStart else s[i - 1] == '-') then Upper(s[i])
            else s[i]
    decreases |s|
  {
    if i > 0 {
      TitleFromAt(s[1..], s[0] == '-', i - 1);
    }
  }

  /** The display name has the input's length; each `-` becomes a space, the
      first character of each word is upper-cased and every other character
      stays where it was. */
  lemma DisplayNameAt(name: string, i: nat)
    requires i < |name|
    ensures |DisplayName(name)| == |name|
    ensures DisplayName(name)[i] ==
              if name[i] == '-' then ' '
              else if i == 0 || name[i - 1] == '-' then Upper(name[i])
              else name[i]
  {
    DisplayNameIsTitle(name);
    TitleFromAt(name, true, i);
  }

  /** The display name contains no `-`; when the name has no spaces, the
      display name has a space exactly where the name had a `-`. */
  lemma DisplayNameSpaces(name: string)
    ensures |DisplayName(name)| == |name|
    ensures '-' !in DisplayName(name)
    ensures ' ' !in name ==>
              forall i :: 0 <= i < |name| ==> (DisplayName(name)[i] == ' ' <==> name[i] == '-')
  {
    DisplayNameIsTitle(name);
    forall i | 0 <= i < |name|
      ensures DisplayName(name)[i] != '-'
      ensures DisplayName(name)[i] == ' ' <==> name[i] == '-' || name[i] == ' '
    {
      DisplayNameAt(name, i);
    }
  }

  /** `"mr-mime"` is shown as `"Mr Mime"`. */
  lemma DisplayNameOfMrMime()
    ensures DisplayName("mr-mime") == "Mr Mime"
  {
    DisplayNameIsTitle("mr-mime");
  }

  /** The empty word between `--` adds nothing but its separating space. */
  lemma DisplayNameOfEmptyWord()
    ensures DisplayName("a--b") == "A  B"
  {
    DisplayNameIsTitle("a--b");
  }

  /** `typeFormat(poke.types).map(plate => plateMap[plate])`: the plates shown. */
  function Plates(types: seq<TypeSlot>): seq<Option<Asset>>
  {
    var names := TypeFormat(types);
    seq(|names|, i requires 0 <= i < |names| => PlateFor(names[i]))
  }

  /** One plate per type, in order: slot i holds the plate image of the i-th
      type name, present exactly when that name is listed. */
  lemma PlatesFollowTypes(types: seq<TypeSlot>)
    ensures |Plates(types)| == |types|
    ensures forall i :: 0 <= i < |types| ==>
              (Plates(types)[i].Some? <==> types[i].kind.name in PlateTypes)
    ensures forall i :: 0 <= i < |types| ==> Plates(types)[i].Some? ==>
              Plates(types)[i].value == Asset(PlatePath(types[i].kind.name))
  {
    forall i | 0 <= i < |types|
      ensures Plates(types)[i].Some? <==> types[i].kind.name in PlateTypes
      ensures Plates(types)[i].Some? ==> Plates(types)[i].value == Asset(PlatePath(types[i].kind.name))
    {
      PlateForListed(types[i].kind.name);
    }
  }
}
