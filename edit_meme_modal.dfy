/** The caption-editing dialog for a saved meme: its two caption fields, the
    record it builds when the user saves, and the busy flag and close call
    around the store update. */
module EditMeme {
  import opened Wrappers
  import opened Text
  import opened MemeContext

  /** The input fields accept at most this many UTF-16 code units. */
  const MaxCaptionLength: nat := 50

  /** The end of the longest prefix of `text` that fits the field, scanning
      from `i`, where the first `i` characters take `used` code units. */
  function FittingEnd(text: string, i: nat, used: nat): (n: nat)
    requires i <= |text| && used == Utf16Length(text[..i]) && used <= MaxCaptionLength
    ensures i <= n <= |text|
    ensures Utf16Length(text[..n]) <= MaxCaptionLength
    ensures n < |text| ==> Utf16Length(text[..n + 1]) > MaxCaptionLength
    decreases |text| - i
  {
    if i == |text| then i
    else
      Utf16LengthStep(text, i);
      if used + CodeUnits(text[i]) > MaxCaptionLength then i
      else FittingEnd(text, i + 1, used + CodeUnits(text[i]))
  }

  /** What a caption field holds after the user enters `text`: the platform
      keeps the longest prefix that fits in `MaxCaptionLength` code units,
      never splitting a surrogate pair. */
  function Capped(text: string): (r: string)
    ensures Utf16Length(r) <= MaxCaptionLength
    ensures r <= text
    ensures Utf16Length(text) <= MaxCaptionLength <==> r == text
    // the prefix is the longest that fits: one more character would not
    ensures |r| < |text| ==> Utf16Length(text[..|r| + 1]) > MaxCaptionLength
  {
    assert text[..0] == [];
    var n := FittingEnd(text, 0, 0);
    if n < |text| then Utf16LengthSlice(text, 0, n + 1); text[..n]
    else assert text[..n] == text; text
  }

  /** The record saved from the dialog: a copy of the original with the
      trimmed captions and the save time as its update time. */
  function Edited(m: Meme, top: string, bottom: string, now: int): (r: Meme)
    // nothing but the captions and the update time changes; in particular the
    // rendered image `memeUri` is the one made for the old captions
    ensures r.(topText := m.topText, bottomText := m.bottomText, updatedAt := m.updatedAt) == m
    ensures r.updatedAt == Some(now)
    // the captions are the typed ones with surrounding white space removed
    ensures r.topText == Trim(top) && r.bottomText == Trim(bottom)
    ensures |r.topText| <= |top| && |r.bottomText| <= |bottom|
    ensures r.topText != [] ==> !IsSpace(r.topText[0]) && !IsSpace(r.topText[|r.topText| - 1])
    ensures r.bottomText != [] ==> !IsSpace(r.bottomText[0]) && !IsSpace(r.bottomText[|r.bottomText| - 1])
    ensures r.topText == [] <==> AllSpace(top)
    ensures r.bottomText == [] <==> AllSpace(bottom)
  {
    m.(topText := Trim(top), bottomText := Trim(bottom), updatedAt := Some(now))
  }

  /** Saving the dialog a second time at the same instant, without touching
      the fields, produces the same record again. */
  lemma EditedIdempotent(m: Meme, top: string, bottom: string, now: int)
    ensures var e := Edited(m, top, bottom, now);
            Edited(e, e.topText, e.bottomText, now) == e
  {
    TrimIdempotent(top);
    TrimIdempotent(bottom);
  }

  /** Putting the edited record into the list in place of the original keeps
      the list newest first and its ids distinct, changes no other record,
      and puts the edit exactly where the original stood. */
  lemma EditKeepsInvariants(ms: seq<Meme>, m: Meme, top: string, bottom: string, now: int)
    requires m in ms && UniqueIds(ms)
    ensures var e := Edited(m, top, bottom, now);
            var r := Replaced(ms, e);
            && |r| == |ms|
            && (forall k :: 0 <= k < |ms| && ms[k] == m ==> r[k] == e)
            && (forall k :: 0 <= k < |ms| && ms[k] != m ==> r[k] == ms[k])
            && (SortedDesc(ms) ==> SortedDesc(r))
            && UniqueIds(r)
  {
    var e := Edited(m, top, bottom, now);
    var i :| 0 <= i < |ms| && ms[i] == m;
    assert forall k :: 0 <= k < |ms| && ms[k].id == e.id ==> k == i;
    ReplacedKeepsInvariants(ms, e);
  }

  /** One open edit dialog. */
  class EditMemeModal {
    const meme: Meme
    var topText: string
    var bottomText: string
    var isSaving: bool
    /** Every value written to `isSaving`, in order. */
    ghost var savingWrites: seq<bool>

    /** The fields start as the record's existing captions. */
    constructor (meme: Meme)
      ensures this.meme == meme
      ensures topText == meme.topText && bottomText == meme.bottomText
      ensures !isSaving && savingWrites == []
    {
      this.meme := meme;
      topText := meme.topText;
      bottomText := meme.bottomText;
      isSaving := false;
      savingWrites := [];
    }

    method SetTopText(text: string)
      modifies this`topText
      ensures topText == Capped(text)
    {
      topText := Capped(text);
    }

    method SetBottomText(text: string)
      modifies this`bottomText
      ensures bottomText == Capped(text)
    {
      bottomText := Capped(text);
    }

    /** Builds the edited record and hands it to the store's update; `writeOk`
        is whether the store's write succeeds. The dialog closes only after a
        successful update, and the busy flag is raised for the duration and
        lowered on both paths. What the update does to the list is stated by
        `EditKeepsInvariants`. */
    method HandleSave(store: MemeProvider, now: int, writeOk: bool) returns (saved: Meme, closed: bool)
      modifies this`isSaving, this`savingWrites, store
      ensures saved == Edited(meme, old(topText), old(bottomText), now)
      ensures store.memes == Replaced(old(store.memes), saved)
      ensures store.stored == if writeOk then Some(store.memes) else old(store.stored)
      ensures closed <==> writeOk
      ensures savingWrites == old(savingWrites) + [true, false] && !isSaving
    {
      isSaving := true;
      savingWrites := savingWrites + [true];
      saved := Edited(meme, topText, bottomText, now);
      var outcome := store.UpdateMeme(saved, writeOk);
      closed := outcome == Written;
      isSaving := false;
      savingWrites := savingWrites + [false];
    }
  }

  /** The captions a dialog saves after its fields were typed into are at
      most `MaxCaptionLength` code units long, whatever was typed. */
  method SaveAfterTyping(m: Meme, typedTop: string, typedBottom: string, now: int) returns (saved: Meme)
    ensures Utf16Length(saved.topText) <= MaxCaptionLength && Utf16Length(saved.bottomText) <= MaxCaptionLength
    ensures saved.id == m.id && saved.createdAt == m.createdAt && saved.memeUri == m.memeUri
    ensures saved.topText == Trim(Capped(typedTop)) && saved.bottomText == Trim(Capped(typedBottom))
  {
    var dialog := new EditMemeModal(m);
    dialog.SetTopText(typedTop);
    dialog.SetBottomText(typedBottom);
    var store := new MemeProvider(None);
    var closed;
    saved, closed := dialog.HandleSave(store, now, true);
    Utf16LengthTrim(Capped(typedTop));
    Utf16LengthTrim(Capped(typedBottom));
  }
}
