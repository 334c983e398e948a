/** Post record extraction (`scrape_page`): each `section.post_body`
    container of a page becomes one formatted text record. The HTML is
    abstracted to the three sub-elements the loop looks up in a container,
    each of which may be missing; their texts are already stripped. */
module Posts {
  import opened Wrappers

  /** The `a.dateline_permalink` element: its text is the post number, its
      `href` attribute the post's URL. */
  datatype Permalink = Permalink(text: string, href: Option<string>)

  /** One `section.post_body` container: the text of `div.content`, the
      permalink, and the text of `span.dateline_timestamp`. */
  datatype PostContainer = PostContainer(
    content: Option<string>,
    permalink: Option<Permalink>,
    timestamp: Option<string>)

  /** The four values a record is printed from. */
  datatype PostFields = PostFields(number: string, url: string, timestamp: string, content: string)

  const NoContent: string := "No content"
  const NotAvailable: string := "N/A"
  const UnknownTime: string := "Unknown"
  /** How a Python f-string renders `None`. */
  const NoneText: string := "None"

  /** `post_number`: the permalink text, or "N/A" without a permalink. */
  function PostNumber(post: PostContainer): string {
    match post.permalink
    case Some(link) => link.text
    case None => NotAvailable
  }

  /** `post_url`: the permalink's href (rendered "None" when the attribute is
      missing), or `baseUrl#number` without a permalink. */
  function PostUrl(post: PostContainer, baseUrl: string): string {
    match post.permalink
    case Some(link) => link.href.GetOr(NoneText)
    case None => baseUrl + "#" + PostNumber(post)
  }

  /** The values substituted into the record of one container. */
  function Extract(post: PostContainer, baseUrl: string): PostFields {
    var number := PostNumber(post);
    PostFields(
      if number == "" then NotAvailable else number,
      PostUrl(post, baseUrl),
      post.timestamp.GetOr(UnknownTime),
      post.content.GetOr(NoContent))
  }

  /** The record layout `[Post label](url)\ntimestamp\ncontent`. */
  function Format(f: PostFields): string {
    "[Post " + f.number + "](" + f.url + ")\n" + f.timestamp + "\n" + f.content
  }

  /** The record appended for one container. */
  function Record(post: PostContainer, baseUrl: string): string {
    Format(Extract(post, baseUrl))
  }

  /** The records of one page: one per container, in document order. */
  function PageRecords(posts: seq<PostContainer>, baseUrl: string): (records: seq<string>)
    ensures |records| == |posts|
    ensures forall i :: 0 <= i < |posts| ==> records[i] == Record(posts[i], baseUrl)
  {
    seq(|posts|, i requires 0 <= i < |posts| => Record(posts[i], baseUrl))
  }

  /** The loop of `scrape_page` over the containers of a fetched page. */
  method ExtractPosts(posts: seq<PostContainer>, baseUrl: string) returns (details: seq<string>)
    ensures |details| == |posts|
    ensures forall i :: 0 <= i < |posts| ==> details[i] == Record(posts[i], baseUrl)
    ensures details == PageRecords(posts, baseUrl)
  {
    details := [];
    for i := 0 to |posts|
      invariant |details| == i
      invariant forall j :: 0 <= j < i ==> details[j] == Record(posts[j], baseUrl)
    {
      details := details + [Record(posts[i], baseUrl)];
    }
  }

  /** Each missing sub-element falls back to its own sentinel; a permalink
      without an href yields the URL "None". */
  lemma Sentinels(post: PostContainer, baseUrl: string)
    ensures post.content.None? ==> Extract(post, baseUrl).content == NoContent
    ensures post.timestamp.None? ==> Extract(post, baseUrl).timestamp == UnknownTime
    ensures post.permalink.None? ==>
      Extract(post, baseUrl).number == NotAvailable && Extract(post, baseUrl).url == baseUrl + "#N/A"
    ensures post.permalink.Some? && post.permalink.value.href.None? ==>
      Extract(post, baseUrl).url == NoneText
  {
  }

  /** A sub-element that is present is printed as it is, even when its text
      is empty; only the label falls back to "N/A" for an empty text. */
  lemma PresentFieldsKept(post: PostContainer, baseUrl: string)
    ensures post.content.Some? ==> Extract(post, baseUrl).content == post.content.value
    ensures post.timestamp.Some? ==> Extract(post, baseUrl).timestamp == post.timestamp.value
    ensures post.permalink.Some? && post.permalink.value.href.Some? ==>
      Extract(post, baseUrl).url == post.permalink.value.href.value
    ensures post.permalink.Some? && post.permalink.value.text != "" ==>
      Extract(post, baseUrl).number == post.permalink.value.text
  {
  }

  /** Each field depends only on its own sub-element: changing one of them
      leaves the other fields of the record as they were. */
  lemma FieldsIndependent(p: PostContainer, q: PostContainer, baseUrl: string)
    ensures p.content == q.content ==> Extract(p, baseUrl).content == Extract(q, baseUrl).content
    ensures p.timestamp == q.timestamp ==> Extract(p, baseUrl).timestamp == Extract(q, baseUrl).timestamp
    ensures p.permalink == q.permalink ==>
      Extract(p, baseUrl).number == Extract(q, baseUrl).number && Extract(p, baseUrl).url == Extract(q, baseUrl).url
  {
  }

  /** The label is never empty, and it reads "N/A" exactly when there is no
      permalink or its text is empty or itself "N/A". */
  lemma LabelNeverEmpty(post: PostContainer, baseUrl: string)
    ensures Extract(post, baseUrl).number != ""
    ensures Extract(post, baseUrl).number == NotAvailable <==>
      post.permalink.None? || post.permalink.value.text == "" || post.permalink.value.text == NotAvailable
  {
  }

  /** The first occurrence of `c` in `s`: what precedes it and what follows. */
  function SplitAt(s: string, c: char): (r: Option<(string, string)>)
    ensures r.Some? ==> s == r.value.0 + [c] + r.value.1 && c !in r.value.0
    ensures r.None? <==> c !in s
  {
    if s == [] then None
    else if s[0] == c then Some(([], s[1..]))
    else
      match SplitAt(s[1..], c)
      case None => None
      case Some((before, after)) =>
        assert s == [s[0]] + s[1..];
        Some(([s[0]] + before, after))
  }

  /** Splitting at the first `c` recovers the parts around it. */
  lemma {:induction false} SplitAtJoin(before: string, c: char, after: string)
    requires c !in before
    ensures SplitAt(before + [c] + after, c) == Some((before, after))
  {
    var s := before + [c] + after;
    if before != [] {
      assert s[1..] == before[1..] + [c] + after;
      SplitAtJoin(before[1..], c, after);
      assert [s[0]] + before[1..] == before;
    }
  }

  /** A record whose parts can be told apart when it is read back: the label
      holds no ']', the URL no ')', the timestamp no line break. */
  predicate Unambiguous(f: PostFields) {
    ']' !in f.number && ')' !in f.url && '\n' !in f.timestamp
  }

  /** Reads a record back into its four values, if it has the record layout. */
  function ParseRecord(s: string): Option<PostFields> {
    if |s| < 6 || s[..6] != "[Post " then None else ParseNumber(s[6..])
  }

  /** The number runs up to the first ']', which is followed by '('. */
  function ParseNumber(s: string): Option<PostFields> {
    match SplitAt(s, ']')
    case None => None
    case Some((number, rest)) =>
      if |rest| == 0 || rest[0] != '(' then None else ParseUrl(number, rest[1..])
  }

  /** The URL runs up to the first ')', which is followed by a line break. */
  function ParseUrl(number: string, s: string): Option<PostFields> {
    match SplitAt(s, ')')
    case None => None
    case Some((url, rest)) =>
      if |rest| == 0 || rest[0] != '\n' then None else ParseTimestamp(number, url, rest[1..])
  }

  /** The timestamp runs up to the next line break; the content is the rest. */
  function ParseTimestamp(number: string, url: string, s: string): Option<PostFields> {
    match SplitAt(s, '\n')
    case None => None
    case Some((timestamp, content)) => Some(PostFields(number, url, timestamp, content))
  }

  /** The record layout, split at the separators the reader looks for. */
  lemma FormatPieces(f: PostFields)
    ensures Format(f) == "[Post " + (f.number + [']'] + ("(" + (f.url + [')'] + ("\n" + (f.timestamp + ['\n'] + f.content)))))
  {
  }

  /** Reading back a printed record gives its values again. */
  lemma FormatThenParse(f: PostFields)
    requires Unambiguous(f)
    ensures ParseRecord(Format(f)) == Some(f)
  {
    var tail2 := f.timestamp + ['\n'] + f.content;
    var tail1 := f.url + [')'] + ("\n" + tail2);
    var tail0 := f.number + [']'] + ("(" + tail1);
    FormatPieces(f);
    assert Format(f)[6..] == tail0;
    SplitAtJoin(f.number, ']', "(" + tail1);
    assert ("(" + tail1)[1..] == tail1;
    SplitAtJoin(f.url, ')', "\n" + tail2);
    assert ("\n" + tail2)[1..] == tail2;
    SplitAtJoin(f.timestamp, '\n', f.content);
  }

  lemma ParseTimestampShape(number: string, url: string, s: string)
    requires ParseTimestamp(number, url, s).Some?
    ensures var f := ParseTimestamp(number, url, s).value;
      f.number == number && f.url == url && '\n' !in f.timestamp
      && s == f.timestamp + ['\n'] + f.content
  {
  }

  lemma ParseUrlShape(number: string, s: string)
    requires ParseUrl(number, s).Some?
    ensures var f := ParseUrl(number, s).value;
      f.number == number && ')' !in f.url && '\n' !in f.timestamp
      && s == f.url + [')'] + ("\n" + (f.timestamp + ['\n'] + f.content))
  {
    var (url, rest) := SplitAt(s, ')').value;
    ParseTimestampShape(number, url, rest[1..]);
    assert rest == "\n" + rest[1..];
  }

  lemma ParseNumberShape(s: string)
    requires ParseNumber(s).Some?
    ensures var f := ParseNumber(s).value;
      Unambiguous(f)
      && s == f.number + [']'] + ("(" + (f.url + [')'] + ("\n" + (f.timestamp + ['\n'] + f.content))))
  {
    var (number, rest) := SplitAt(s, ']').value;
    ParseUrlShape(number, rest[1..]);
    assert rest == "(" + rest[1..];
  }

  /** Whatever reads back as a record is exactly the printing of the values
      read, and those values are unambiguous. */
  lemma ParseThenFormat(s: string)
    requires ParseRecord(s).Some?
    ensures Unambiguous(ParseRecord(s).value)
    ensures Format(ParseRecord(s).value) == s
  {
    ParseNumberShape(s[6..]);
    assert s == "[Post " + s[6..];
    FormatPieces(ParseRecord(s).value);
  }

  /** The record of a container reads back as the values extracted from it,
      sentinels included, whenever those values are unambiguous. */
  lemma RecordReadsBack(post: PostContainer, baseUrl: string)
    requires Unambiguous(Extract(post, baseUrl))
    ensures ParseRecord(Record(post, baseUrl)) == Some(Extract(post, baseUrl))
  {
    FormatThenParse(Extract(post, baseUrl));
  }
}
