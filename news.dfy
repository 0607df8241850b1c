/** The News bean (model/News.java): a mutable object with three string
    fields, getters, setters and toString. */
module Model {

  /** The value held by a News object at one moment: what the handlers list and
      what the JSON body of a submission carries. */
  datatype Article = Article(author: string, title: string, description: string)

  datatype Option<T> = None | Some(value: T)

  const Head := "News{author='"
  const TitleSep := "', title='"
  const DescriptionSep := "', description='"
  const Tail := "'}"

  /** The text toString builds from the three field values: each field between
      apostrophes, after its label, the whole wrapped in "News{...}". */
  function Render(a: Article): (s: string)
    ensures StartsWith(s, Head)
    ensures |s| == |Head| + |a.author| + |TitleSep| + |a.title| + |DescriptionSep| + |a.description| + |Tail|
    ensures s[|Head|..|Head| + |a.author|] == a.author
    ensures s[|s| - |Tail|..] == Tail
  {
    var s := Head + a.author + TitleSep + a.title + DescriptionSep + a.description + Tail;
    assert s == Head + (a.author + (TitleSep + a.title + DescriptionSep + a.description + Tail));
    assert s == (Head + a.author + TitleSep + a.title + DescriptionSep + a.description) + Tail;
    s
  }

  /** `s` holds no apostrophe, the delimiter toString puts around each field. */
  predicate NoQuote(s: string) {
    forall i :: 0 <= i < |s| ==> s[i] != '\''
  }

  /** Index of the first apostrophe in `s`, or |s| when there is none. */
  function QuoteIndex(s: string): (k: nat)
    ensures k <= |s|
    ensures k < |s| ==> s[k] == '\''
    ensures NoQuote(s[..k])
  {
    if s == [] then 0
    else if s[0] == '\'' then 0
    else
      var k := 1 + QuoteIndex(s[1..]);
      assert s[..k] == [s[0]] + s[1..][..k - 1];
      k
  }

  /** `s` begins with `p`. */
  predicate StartsWith(s: string, p: string) {
    |p| <= |s| && s[..|p|] == p
  }

  /** Splits `s` at its first apostrophe into the field before it and what
      follows `sep`, when `sep` begins there. */
  function ReadField(s: string, sep: string): (r: Option<(string, string)>)
    ensures r.Some? ==> NoQuote(r.value.0) && |r.value.0| + |sep| + |r.value.1| == |s|
  {
    var i := QuoteIndex(s);
    if StartsWith(s[i..], sep) then Some((s[..i], s[i..][|sep|..])) else None
  }

  /** Reads back the three fields from toString's text, taking each field to end
      at the first apostrophe after it starts. */
  function ParseRendered(s: string): (r: Option<Article>)
    ensures r.Some? ==> StartsWith(s, Head)
  {
    if StartsWith(s, Head) then ParseFields(s[|Head|..]) else None
  }

  /** Reads back the three fields from what follows "News{author='". */
  function ParseFields(s: string): (r: Option<Article>) {
    var f1 := ReadField(s, TitleSep);
    if f1.None? then None else
    var f2 := ReadField(f1.value.1, DescriptionSep);
    if f2.None? then None else
    var f3 := ReadField(f2.value.1, Tail);
    if f3.None? || f3.value.1 != [] then None else
    Some(Article(f1.value.0, f2.value.0, f3.value.0))
  }

  /** A field free of apostrophes, followed by a delimiter that starts with one,
      is read back exactly, and so is what follows the delimiter. */
  lemma ReadFieldOf(field: string, sep: string, rest: string)
    requires NoQuote(field) && sep != [] && sep[0] == '\''
    ensures ReadField(field + sep + rest, sep) == Some((field, rest))
  {
    var s := field + sep + rest;
    assert s[|field|] == '\'';
    assert s[..|field|] == field;
    assert s[|field|..] == sep + rest;
  }

  /** The three fields, each read back in turn, make up the parsed article. */
  lemma ParseFieldsOf(s0: string, s1: string, s2: string, a: Article)
    requires ReadField(s0, TitleSep) == Some((a.author, s1))
    requires ReadField(s1, DescriptionSep) == Some((a.title, s2))
    requires ReadField(s2, Tail) == Some((a.description, []))
    ensures ParseFields(s0) == Some(a)
  {
  }

  /** The text after "News{author='" reads back as the three fields. */
  lemma {:induction false} ParseFieldsRoundTrip(a: Article)
    requires NoQuote(a.author) && NoQuote(a.title) && NoQuote(a.description)
    ensures ParseFields(a.author + (TitleSep + (a.title + (DescriptionSep + (a.description + Tail))))) == Some(a)
  {
    var s2 := a.description + Tail;
    var s1 := a.title + (DescriptionSep + s2);
    var s0 := a.author + (TitleSep + s1);
    ReadFieldOf(a.author, TitleSep, s1);
    assert a.author + TitleSep + s1 == s0;
    ReadFieldOf(a.title, DescriptionSep, s2);
    assert a.title + DescriptionSep + s2 == s1;
    ReadFieldOf(a.description, Tail, []);
    assert a.description + Tail + [] == s2;
    ParseFieldsOf(s0, s1, s2, a);
  }

  /** toString loses nothing when no field holds an apostrophe: the fields can
      be read back from the text. */
  lemma {:induction false} ParseRenderedRoundTrip(a: Article)
    requires NoQuote(a.author) && NoQuote(a.title) && NoQuote(a.description)
    ensures ParseRendered(Render(a)) == Some(a)
  {
    var s0 := a.author + (TitleSep + (a.title + (DescriptionSep + (a.description + Tail))));
    ParseFieldsRoundTrip(a);
    Reassociate(Head, a.author, TitleSep, a.title, DescriptionSep, a.description, Tail);
    StartsWithAppend(Head, s0);
  }

  lemma Reassociate(s1: string, s2: string, s3: string, s4: string, s5: string, s6: string, s7: string)
    ensures s1 + s2 + s3 + s4 + s5 + s6 + s7 == s1 + (s2 + (s3 + (s4 + (s5 + (s6 + s7)))))
  {
  }

  lemma StartsWithAppend(p: string, s: string)
    ensures StartsWith(p + s, p) && (p + s)[|p|..] == s
  {
    assert (p + s)[..|p|] == p;
  }

  /** toString cannot tell apart every two articles: a field that holds the
      delimiter sequence makes two different articles print the same text. */
  lemma RenderNotInjective()
    ensures Render(Article("a', title='b", "c", "d")) == Render(Article("a", "b', title='c", "d"))
  {
  }

  /** The News object: its fields are updated in place by the setters. */
  class News {
    var author: string
    var title: string
    var description: string

    /** The value of the three fields now. */
    function Value(): Article
      reads this
    {
      Article(author, title, description)
    }

    /** The parameterised constructor stores its arguments as given. */
    constructor (author: string, title: string, description: string)
      ensures Value() == Article(author, title, description)
    {
      this.author := author;
      this.title := title;
      this.description := description;
    }

    function GetAuthor(): (r: string)
      reads this
      ensures r == Value().author
    {
      author
    }

    method SetAuthor(author: string)
      modifies this
      ensures Value() == old(Value()).(author := author)
    {
      this.author := author;
    }

    function GetTitle(): (r: string)
      reads this
      ensures r == Value().title
    {
      title
    }

    method SetTitle(title: string)
      modifies this
      ensures Value() == old(Value()).(title := title)
    {
      this.title := title;
    }

    function GetDescription(): (r: string)
      reads this
      ensures r == Value().description
    {
      description
    }

    method SetDescription(description: string)
      modifies this
      ensures Value() == old(Value()).(description := description)
    {
      this.description := description;
    }

    /** toString: the rendering of the three current field values, whatever
        they hold; the fields can be read back from it when none holds an
        apostrophe. */
    function ToString(): (s: string)
      reads this
      ensures s == Render(Value())
      ensures StartsWith(s, Head) && |s| == |Head| + |author| + |TitleSep| + |title| + |DescriptionSep| + |description| + |Tail|
      ensures NoQuote(author) && NoQuote(title) && NoQuote(description) ==> ParseRendered(s) == Some(Value())
    {
      var s := Render(Value());
      assert NoQuote(author) && NoQuote(title) && NoQuote(description) ==> ParseRendered(s) == Some(Value()) by {
        if NoQuote(author) && NoQuote(title) && NoQuote(description) {
          ParseRenderedRoundTrip(Value());
        }
      }
      s
    }
  }
}
