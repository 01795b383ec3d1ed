/** The content store: site metadata and the three record collections
    (characters, archives, blog posts) the pages render. The store is
    read-only once loaded, so every collection is a value. */
module Content {
  import opened Wrappers
  import Decimal

  /** A calendar date as the `YYYY.MM.DD` strings of the data file denote it. */
  datatype Date = Date(year: nat, month: nat, day: nat)

  /** `a` is the same day as `b` or later (lexicographic on year, month, day). */
  predicate NotBefore(a: Date, b: Date) {
    a.year > b.year
    || (a.year == b.year && a.month > b.month)
    || (a.year == b.year && a.month == b.month && a.day >= b.day)
  }

  /** The fields fit the fixed widths of `YYYY.MM.DD`. */
  predicate Writable(d: Date) {
    d.year < 10000 && d.month < 100 && d.day < 100
  }

  function DateText(d: Date): (s: string)
    ensures |s| == 10 && s[4] == '.' && s[7] == '.'
  {
    Decimal.Padded(d.year, 4) + "." + Decimal.Padded(d.month, 2) + "." + Decimal.Padded(d.day, 2)
  }

  /** Reads a `YYYY.MM.DD` string back into a date; anything else is `None`.
      This is the part of `new Date(s.replace(/\./g, '-'))` the archive sort
      relies on. */
  function ParseDateText(s: string): (r: Option<Date>)
    ensures r.Some? ==> |s| == 10 && s[4] == '.' && s[7] == '.'
  {
    if |s| == 10 && s[4] == '.' && s[7] == '.'
       && Decimal.AllDigits(s[..4]) && Decimal.AllDigits(s[5..7]) && Decimal.AllDigits(s[8..])
    then Some(Date(Decimal.Value(s[..4]), Decimal.Value(s[5..7]), Decimal.Value(s[8..])))
    else None
  }

  /** `App.utils.formatDate`: date strings are stored already formatted, so
      the text is returned as it is. */
  function FormatDate(text: string): string {
    text
  }

  /** Formatting a stored date text keeps it readable as the same date. */
  lemma FormatDateReadsBack(d: Date)
    requires Writable(d)
    ensures ParseDateText(FormatDate(DateText(d))) == Some(d)
  {
    var s := DateText(d);
    assert s[..4] == Decimal.Padded(d.year, 4);
    assert s[5..7] == Decimal.Padded(d.month, 2);
    assert s[8..] == Decimal.Padded(d.day, 2);
    Decimal.ValueOfPadded(d.year, 4);
    Decimal.ValueOfPadded(d.month, 2);
    Decimal.ValueOfPadded(d.day, 2);
  }

  datatype NavEntry = NavEntry(href: string, text: string)

  datatype Site = Site(title: string, description: string, copyright: string, navigation: seq<NavEntry>)

  datatype Stats = Stats(combat: int, magic: int, wisdom: int)

  datatype Character = Character(id: nat, name: string, title: string, image: string, stats: Stats)

  datatype ArchiveRecord = ArchiveRecord(id: nat, title: string, kind: string, date: Date, image: Option<string>)

  datatype BlogPost = BlogPost(id: nat, title: string, category: string, date: Date, tags: seq<string>, views: nat)

  /** The whole data file: site settings and the three record collections. */
  datatype Store = Store(site: Site, characters: seq<Character>, archives: seq<ArchiveRecord>, blogPosts: seq<BlogPost>)

  /** The three record kinds that have list and detail pages. */
  datatype Kind = CharacterKind | ArchiveKind | BlogKind {
    /** The type name the list pages pass to `createGridItem`. */
    function Name(): string {
      match this
      case CharacterKind => "character"
      case ArchiveKind => "archive"
      case BlogKind => "blog"
    }
  }
}
