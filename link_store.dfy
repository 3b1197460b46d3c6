/**
 * The `NewsArticle` table, seen through the only column the scrapers query: the
 * link. Both scrapers save a list of articles by inserting each one whose link is
 * not stored yet and counting the inserts.
 */
module LinkStore {
  /** The stored article links. */
  class Table {
    var links: set<string>

    constructor (initial: set<string>)
      ensures links == initial
    {
      links := initial;
    }

    /** `NewsArticle.objects.filter(link=link).exists()`. */
    method Exists(link: string) returns (found: bool)
      ensures found <==> link in links
    {
      found := link in links;
    }

    /** `NewsArticle.objects.create(..., link=link, ...)`. */
    method Create(link: string)
      modifies this
      ensures links == old(links) + {link}
    {
      links := links + {link};
    }
  }

  /** The save loop as a function of the stored links and the links to save, in order: the links stored afterwards and the number of inserts. */
  function Inserted(stored: set<string>, links: seq<string>): (r: (set<string>, nat))
    ensures stored <= r.0
    decreases |links|
  {
    if |links| == 0 then (stored, 0)
    else if links[0] in stored then Inserted(stored, links[1..])
    else
      var rest := Inserted(stored + {links[0]}, links[1..]);
      (rest.0, rest.1 + 1)
  }

  /**
   * What is stored after a save is everything that was stored plus every link of the
   * batch, and the count is exactly the number of links that were new, so a link
   * repeated in the batch is counted once and the count never exceeds the batch.
   */
  lemma {:induction false} InsertedSpec(stored: set<string>, links: seq<string>)
    ensures Inserted(stored, links).0 == stored + (set l | l in links)
    ensures Inserted(stored, links).1 == |Inserted(stored, links).0 - stored|
    ensures Inserted(stored, links).1 <= |links|
    decreases |links|
  {
    if |links| == 0 {
    } else {
      var x := links[0];
      assert links == [x] + links[1..];
      if x in stored {
        InsertedSpec(stored, links[1..]);
      } else {
        InsertedSpec(stored + {x}, links[1..]);
        var rest := Inserted(stored + {x}, links[1..]);
        assert rest.0 - stored == (rest.0 - (stored + {x})) + {x};
      }
    }
  }

  /** Saving `a` and then `b` is saving `a + b`. */
  lemma {:induction false} InsertedAppend(stored: set<string>, a: seq<string>, b: seq<string>)
    ensures Inserted(stored, a + b).0 == Inserted(Inserted(stored, a).0, b).0
    ensures Inserted(stored, a + b).1 == Inserted(stored, a).1 + Inserted(Inserted(stored, a).0, b).1
    decreases |a|
  {
    if |a| == 0 {
      assert a + b == b;
    } else {
      assert (a + b)[1..] == a[1..] + b;
      assert (a + b)[0] == a[0];
      if a[0] in stored {
        InsertedAppend(stored, a[1..], b);
      } else {
        InsertedAppend(stored + {a[0]}, a[1..], b);
      }
    }
  }

  lemma InsertedSingle(stored: set<string>, link: string)
    ensures Inserted(stored, [link]) == (stored + {link}, if link in stored then 0 else 1)
  {
    assert [link][1..] == [];
    if link in stored {
      assert stored + {link} == stored;
    }
  }

  /** One step of the save loop: insert the link if it is new. */
  lemma InsertedStep(stored: set<string>, a: seq<string>, link: string)
    ensures Inserted(stored, a + [link]).0 == Inserted(stored, a).0 + {link}
    ensures Inserted(stored, a + [link]).1 == Inserted(stored, a).1 + (if link in Inserted(stored, a).0 then 0 else 1)
  {
    var s := Inserted(stored, a).0;
    InsertedAppend(stored, a, [link]);
    InsertedSingle(s, link);
  }

  /** Saving the same batch twice inserts nothing the second time. */
  lemma InsertedIdempotent(stored: set<string>, links: seq<string>)
    ensures Inserted(Inserted(stored, links).0, links) == (Inserted(stored, links).0, 0)
  {
    InsertedSpec(stored, links);
    InsertedSpec(Inserted(stored, links).0, links);
  }

  /** A link that appears twice in one batch is stored once. */
  lemma RepeatedLinkStoredOnce(stored: set<string>, link: string)
    requires link !in stored
    ensures Inserted(stored, [link, link]) == (stored + {link}, 1)
  {
    InsertedStep(stored, [link], link);
    assert [link] + [link] == [link, link];
  }
}
