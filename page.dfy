/**
  The page elements the scraper reads, as already-extracted data, the
  exceptions reading them can raise, and `process_hash_link`.
 */
module Page {
  import opened Wrappers
  import opened Strings

  /** The exceptions that escape the scraping functions. */
  datatype PageError =
    | ElementNotFound        // `find_element_by_*` raises NoSuchElementException
    | WaitTimedOut           // `WebDriverWait(...).until(...)` raises TimeoutException
    | HrefMissing            // `get_attribute('href')` is None, and `None.split` raises AttributeError
    | HeaderIndexOutOfRange  // `headers[i]` raises IndexError

  /** An `<a>` element: its text and its `href` attribute, if it has one. */
  datatype Anchor = Anchor(text: string, href: Option<string>)

  // ---------------------------------------------------------------------
  // The hash of a link
  // ---------------------------------------------------------------------

  /**
    `hash` sits at `link[i..]`: `i` is just past the last '/' (or 0 when
    there is none), and `hash` runs up to the first '?' after that (or to
    the end of the link).
   */
  predicate HashAt(link: string, hash: string, i: int) {
    && 0 <= i <= i + |hash| <= |link|
    && hash == link[i..i + |hash|]
    && '/' !in link[i..] && (i > 0 ==> link[i - 1] == '/')
    && '?' !in hash && (i + |hash| < |link| ==> link[i + |hash|] == '?')
  }

  /**
    `link.split('/')[-1].split('?')[0]`: the part of the link after its
    last '/' and before the first '?' that follows.
   */
  function HashOf(link: string): (hash: string)
    ensures exists i :: HashAt(link, hash, i)
    ensures '/' !in hash && '?' !in hash
  {
    var pieces := Split(link, ['/']);
    var last := pieces[|pieces| - 1];
    LastPiece(link, '/');
    FirstPiece(last, '?');
    PiecesLocated(link, last, Split(last, ['?'])[0]);
    Split(last, ['?'])[0]
  }

  /** A prefix of a suffix, cut as the two splits cut it, is located as `HashAt` says. */
  lemma PiecesLocated(link: string, last: string, hash: string)
    requires |last| <= |link| && last == link[|link| - |last|..] && '/' !in last
    requires |last| < |link| ==> link[|link| - |last| - 1] == '/'
    requires |hash| <= |last| && hash == last[..|hash|] && '?' !in hash
    requires |hash| < |last| ==> last[|hash|] == '?'
    ensures HashAt(link, hash, |link| - |last|)
  {
    var i := |link| - |last|;
    assert hash == link[i..i + |hash|];
  }

  /** The location fixes the hash: any string sitting where `HashAt` says is the hash. */
  lemma HashUnique(link: string, hash: string, i: int)
    requires HashAt(link, hash, i)
    ensures hash == HashOf(link)
  {
    var h0 := HashOf(link);
    var i0 :| HashAt(link, h0, i0);
    SlashFree(link, i);
    SlashFree(link, i0);
    assert i == i0;
    QueryFree(link, i, hash);
    QueryFree(link, i, h0);
  }

  lemma SlashFree(link: string, i: int)
    requires 0 <= i <= |link| && '/' !in link[i..]
    ensures forall k :: i <= k < |link| ==> link[k] != '/'
  {
    assert forall k :: i <= k < |link| ==> link[k] == link[i..][k - i];
  }

  lemma QueryFree(link: string, i: int, hash: string)
    requires 0 <= i <= i + |hash| <= |link| && hash == link[i..i + |hash|] && '?' !in hash
    ensures forall k :: i <= k < i + |hash| ==> link[k] != '?'
  {
    assert forall k :: i <= k < i + |hash| ==> link[k] == hash[k - i];
  }

  /** A link with neither '/' nor '?' is its own hash. */
  lemma PlainLinkIsItsHash(link: string)
    requires '/' !in link && '?' !in link
    ensures HashOf(link) == link
  {
    assert link[0..] == link;
    assert link[0..0 + |link|] == link;
    HashUnique(link, link, 0);
  }

  // ---------------------------------------------------------------------
  // process_hash_link
  // ---------------------------------------------------------------------

  /**
    `process_hash_link(elem, './/a')`, given the anchors inside `elem` in
    document order: the wait times out when there are none; the first one
    is the one found, and it must carry an `href`. The result is its hash
    and the link itself.
   */
  function ProcessHashLink(anchors: seq<Anchor>): (r: Result<(string, string), PageError>)
    ensures r.Success? <==> |anchors| > 0 && anchors[0].href.Some?
    ensures |anchors| == 0 ==> r == Failure(WaitTimedOut)
    ensures |anchors| > 0 && anchors[0].href.None? ==> r == Failure(HrefMissing)
    ensures r.Success? ==> r.value.1 == anchors[0].href.value
    ensures r.Success? ==> exists i :: HashAt(r.value.1, r.value.0, i)
  {
    if |anchors| == 0 then Failure(WaitTimedOut)
    else
      match anchors[0].href
      case None => Failure(HrefMissing)
      case Some(link) => Success((HashOf(link), link))
  }
}
