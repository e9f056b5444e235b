// The add-mode card exactly as the object literal in src/App.tsx builds it.
// The submitted item always owns an `id` key (undefined when adding), and
// object spread copies that key over the `id` written before it, so the
// count-based id never survives. The rest of the model uses
// Library.AppendNew, which keeps the count-based id.

module AsWritten {
  import opened Sequences
  import opened Library

  /** A card whose id may be undefined (None). */
  datatype Card = Card(id: Option<int>, color: string, year: int, title: string, authors: string, category: string)

  /** `{ id: count + 1, color, ...item }`: every key of `item` replaces the
      default before it, `id` included. */
  function NewCardAsWritten(count: nat, color: string, item: Item): (r: Card)
    ensures r.id == item.id
    ensures item.id == None ==> r.id != Some(count + 1)
    ensures r.color == color && r.title == item.title && r.authors == item.authors
    ensures r.year == item.year && r.category == item.category
  {
    var defaults := Card(Some(count + 1), color, 0, "", "", "");
    defaults.(id := item.id, title := item.title, authors := item.authors, year := item.year, category := item.category)
  }

  /** Two notes added one after the other, both from the add form (item id
      undefined), get the same id although the note count differs. The
      intended cards differ in id. */
  lemma AddedCardsShareId(notes: seq<Note>, color1: string, color2: string, first: Item, second: Item)
    requires first.id == None && second.id == None
    ensures NewCardAsWritten(|notes|, color1, first).id == NewCardAsWritten(|notes| + 1, color2, second).id == None
    ensures var intended := AppendNew(AppendNew(notes, color1, first), color2, second);
      intended[|notes|].id == |notes| + 1 && intended[|notes| + 1].id == |notes| + 2
  {
  }

  /** `deleteNote` over cards whose ids may be undefined: `note.id !== id`
      holds for every card whose id differs, undefined compared equal to
      undefined. */
  function RemoveCardAsWritten(cards: seq<Card>, id: Option<int>): (r: seq<Card>)
    ensures forall c :: c in r <==> c in cards && c.id != id
    ensures Subseq(r, cards)
  {
    if cards == [] then []
    else if cards[0].id == id then RemoveCardAsWritten(cards[1..], id)
    else [cards[0]] + RemoveCardAsWritten(cards[1..], id)
  }

  /** Deleting distributes over concatenation, so the kept cards keep their
      order and every copy of an identical card is kept or dropped alike. */
  lemma {:induction false} RemoveCardAppend(a: seq<Card>, b: seq<Card>, id: Option<int>)
    ensures RemoveCardAsWritten(a + b, id) == RemoveCardAsWritten(a, id) + RemoveCardAsWritten(b, id)
  {
    if a == [] {
      assert a + b == b;
    } else {
      var ab := a + b;
      assert ab[0] == a[0];
      assert ab[1..] == a[1..] + b;
      RemoveCardAppend(a[1..], b, id);
      if a[0].id == id {
        calc {
          RemoveCardAsWritten(ab, id);
          RemoveCardAsWritten(ab[1..], id);
          RemoveCardAsWritten(a[1..], id) + RemoveCardAsWritten(b, id);
          RemoveCardAsWritten(a, id) + RemoveCardAsWritten(b, id);
        }
      } else {
        calc {
          RemoveCardAsWritten(ab, id);
          [a[0]] + RemoveCardAsWritten(ab[1..], id);
          [a[0]] + (RemoveCardAsWritten(a[1..], id) + RemoveCardAsWritten(b, id));
          ([a[0]] + RemoveCardAsWritten(a[1..], id)) + RemoveCardAsWritten(b, id);
          RemoveCardAsWritten(a, id) + RemoveCardAsWritten(b, id);
        }
      }
    }
  }

  /** The edit-mode map over such cards: `note.id === item.id` also matches
      when both ids are undefined. */
  function UpdateCardsAsWritten(cards: seq<Card>, item: Item): (r: seq<Card>)
    ensures |r| == |cards|
    ensures forall i :: 0 <= i < |cards| ==> r[i].id == cards[i].id
    ensures forall i :: 0 <= i < |cards| && cards[i].id != item.id ==> r[i] == cards[i]
    ensures forall i :: 0 <= i < |cards| && cards[i].id == item.id ==>
      r[i].title == item.title && r[i].authors == item.authors &&
      r[i].year == item.year && r[i].category == item.category && r[i].color == cards[i].color
  {
    if cards == [] then []
    else
      var c := cards[0];
      var merged := if c.id == item.id
        then c.(id := item.id, title := item.title, authors := item.authors, year := item.year, category := item.category)
        else c;
      [merged] + UpdateCardsAsWritten(cards[1..], item)
  }

  /** With two cards added from the form, deleting the one clicked removes
      both, and saving an edit of it (the form sends its undefined id)
      rewrites both. */
  lemma SharedIdReachesBoth(notes: seq<Note>, color1: string, color2: string, first: Item, second: Item, edit: Item)
    requires first.id == None && second.id == None
    requires edit.id == NewCardAsWritten(|notes|, color1, first).id
    ensures var cards := [NewCardAsWritten(|notes|, color1, first), NewCardAsWritten(|notes| + 1, color2, second)];
      && RemoveCardAsWritten(cards, cards[0].id) == []
      && var edited := UpdateCardsAsWritten(cards, edit);
         edited[0].title == edit.title && edited[1].title == edit.title
  {
    var cards := [NewCardAsWritten(|notes|, color1, first), NewCardAsWritten(|notes| + 1, color2, second)];
    assert cards[0].id == None && cards[1].id == None;
    assert RemoveCardAsWritten(cards, None) == RemoveCardAsWritten(cards[1..], None);
    assert RemoveCardAsWritten(cards[1..], None) == RemoveCardAsWritten(cards[1..][1..], None);
    assert cards[1..][1..] == [];
  }
}
