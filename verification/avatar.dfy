/** The avatar atom: an image when there is a source, else the children,
    else up to two initials taken from the `alt` text. */
module Avatar {
  import opened Maybe
  import opened JsText
  import opened JsValue

  /** `alt = "Avatar"`: the default applies only when no `alt` is passed. */
  function Alt(alt: Option<string>): (r: string)
    ensures alt.Some? ==> r == alt.value
    ensures alt.None? ==> r == "Avatar"
  {
    alt.GetOr("Avatar")
  }

  /** `words.map(n => n[0]).join("")`: an empty word contributes `undefined`,
      which `join` writes as nothing. */
  function FirstChars(words: seq<string>): (r: string)
    ensures |r| <= |words|
    ensures (forall j :: 0 <= j < |words| ==> words[j] != "") ==>
              |r| == |words| && forall j :: 0 <= j < |words| ==> r[j] == words[j][0]
  {
    if |words| == 0 then ""
    else (if words[0] == "" then "" else [words[0][0]]) + FirstChars(words[1..])
  }

  /** `alt.split(" ").map(n => n[0]).join("").toUpperCase().slice(0, 2)` */
  function Initials(alt: string): (r: string)
    ensures |r| <= 2
    ensures |r| == (if |FirstChars(Split(alt, ' '))| < 2 then |FirstChars(Split(alt, ' '))| else 2)
    ensures forall k :: 0 <= k < |r| ==> r[k] == UpperChar(FirstChars(Split(alt, ' '))[k])
  {
    var all := ToUpper(FirstChars(Split(alt, ' ')));
    all[..if |all| < 2 then |all| else 2]
  }

  /** A string with no separator in it is a single piece. */
  lemma {:induction false} SplitWord(w: string, sep: char)
    requires sep !in w
    ensures Split(w, sep) == [w]
  {
    if |w| > 0 {
      assert sep !in w[1..];
      SplitWord(w[1..], sep);
      assert [w[0]] + w[1..] == w;
    }
  }

  /** A word followed by the separator splits off as the first piece. */
  lemma {:induction false} SplitAfterWord(w: string, sep: char, t: string)
    requires sep !in w
    ensures Split(w + [sep] + t, sep) == [w] + Split(t, sep)
  {
    if |w| == 0 {
      assert w + [sep] + t == [sep] + t;
      assert ([sep] + t)[1..] == t;
    } else {
      assert sep !in w[1..];
      SplitAfterWord(w[1..], sep, t);
      assert (w + [sep] + t)[1..] == w[1..] + [sep] + t;
      assert [w[0]] + w[1..] == w;
    }
  }

  /** Two space-separated names give the capitalised first letter of each. */
  lemma TwoNamesGiveTheirInitials(first: string, last: string)
    requires first != "" && last != ""
    requires ' ' !in first && ' ' !in last
    ensures Initials(first + " " + last) == [UpperChar(first[0]), UpperChar(last[0])]
  {
    SplitAfterWord(first, ' ', last);
    SplitWord(last, ' ');
    assert first + " " + last == first + [' '] + last;
    var words := Split(first + " " + last, ' ');
    assert words == [first, last];
    assert FirstChars(words) == [first[0]] + FirstChars([last]);
    assert FirstChars([last]) == [last[0]] + FirstChars([]);
  }

  /** Without an `alt`, the avatar shows "A". */
  lemma DefaultAltShowsA()
    ensures Initials(Alt(None)) == "A"
  {
    SplitWord("Avatar", ' ');
    assert FirstChars(["Avatar"]) == "A";
  }

  /** Blanks around and between the words contribute nothing. */
  lemma {:induction false} EmptyWordsContributeNothing(a: seq<string>, b: seq<string>)
    ensures FirstChars(a + [""] + b) == FirstChars(a + b)
  {
    if |a| == 0 {
      assert a + [""] + b == [""] + b;
      assert ([""] + b)[1..] == b;
      assert a + b == b;
    } else {
      assert (a + [""] + b)[1..] == a[1..] + [""] + b;
      assert (a + b)[1..] == a[1..] + b;
      EmptyWordsContributeNothing(a[1..], b);
    }
  }

  datatype Content = Image(src: Value, alt: string) | Children(children: Value) | Text(initials: string)

  /** The avatar's content: image, else children, else initials. */
  function Render(src: Value, alt: Option<string>, children: Value): (r: Content)
    ensures r.Image? <==> Truthy(src)
    ensures r.Children? <==> !Truthy(src) && Truthy(children)
    ensures r.Image? ==> r.src == src && r.alt == Alt(alt)
    ensures r.Children? ==> r.children == children
    ensures r.Text? ==> |r.initials| <= 2 && r.initials == Initials(Alt(alt))
  {
    if Truthy(src) then Image(src, Alt(alt))
    else if Truthy(children) then Children(children)
    else Text(Initials(Alt(alt)))
  }

  /** A user's avatar (`alt` is the user's name) with no picture and no
      children shows the capitalised initials of "First Last", and one with
      no `alt` shows "A". */
  lemma NamedAvatarShowsInitials(src: Value, children: Value, first: string, last: string)
    requires !Truthy(src) && !Truthy(children)
    requires first != "" && last != ""
    requires ' ' !in first && ' ' !in last
    ensures Render(src, Some(first + " " + last), children) == Text([UpperChar(first[0]), UpperChar(last[0])])
    ensures Render(src, None, children) == Text("A")
  {
    TwoNamesGiveTheirInitials(first, last);
    DefaultAltShowsA();
  }
}
