// Which edits of a file keep its header readable, and a file on which the slot flip does not swap labels.
module HeaderEdits {
  import opened Bytes
  import opened Layout
  import opened Scanner
  import opened Classification
  import opened Locality
  import opened HeaderFlip
  import opened WrittenFiles

  /** The eight cookie bytes stand right before offset n. */
  predicate CookieEndsAt(data: seq<byte>, n: nat) {
    n >= 8 && OccursAt(data, ToLittle(STREAMING_COOKIE, 8), n - 8)
  }

  lemma CookieSpelled(data: seq<byte>, n: nat)
    requires 8 <= n <= |data|
    ensures U64At(data, n - 8) == STREAMING_COOKIE <==> CookieEndsAt(data, n)
  {
    Limits();
    LittleRoundTrip(STREAMING_COOKIE, 8);
    LittleIsUnique(data[n - 8..n - 8 + 8]);
  }

  /** A cut keeps the header readable exactly when it keeps 24 bytes and, of a streaming file, ends on a cookie. */
  lemma CutIsReadableExactlyWhen(data: seq<byte>, n: nat)
    requires n <= |data| && ParseHeader(data).Some?
    ensures ParseHeader(data[..n]).Some?
       <==> n >= 24 && (ParseHeader(data).value.streaming ==> n >= 40 && CookieEndsAt(data, n))
  {
    var cut := data[..n];
    if n >= 24 {
      assert Agree(cut, data, 0, 24);
      AgreeSlice(cut, data, 0, 24, 16, 20);
      AgreeSlice(cut, data, 0, 24, 0, 8);
      if n >= 40 {
        CookieSpelled(data, n);
        assert Agree(cut, data, 0, n);
        AgreeSlice(cut, data, 0, n, n - 8, n - 8 + 8);
      }
    }
  }

  /** A flip keeps it readable exactly when slot 0 is in use, or the file streams already, or it ends on a cookie. */
  lemma FlipIsReadableExactlyWhen(data: seq<byte>)
    requires ParseHeader(data).Some?
    ensures ParseHeader(Flip(data)).Some?
       <==> || ParseHeader(data).value.topRefs.0 != ALL_ONES
            || ParseHeader(data).value.streaming
            || (|data| >= 40 && CookieEndsAt(data, |data|))
  {
    var flipped := Flip(data);
    assert Agree(data, flipped, 0, 23);
    AgreeSlice(data, flipped, 0, 23, 16, 20);
    AgreeSlice(data, flipped, 0, 23, 0, 8);
    if |data| >= 40 {
      CookieSpelled(data, |data|);
      assert Agree(data, flipped, 24, |data|);
      AgreeSlice(data, flipped, 24, |data|, |data| - 8, |data| - 8 + 8);
    }
  }

  /** Slot 0 all ones, slot 1 in use, the slot bit set, and a streaming footer at the end all the same. */
  function ConvertedStream(slot1: nat, formats: (byte, byte), reserved: byte, flags: byte, body: seq<byte>, root: nat)
    : seq<byte>
  {
    HeaderBytes((ALL_ONES, slot1), formats, reserved, flags) + (body + Footer(root))
  }

  lemma HeaderBeforeFlip(slot1: nat, formats: (byte, byte), reserved: byte, flags: byte, body: seq<byte>, root: nat)
    requires slot1 <= ALL_ONES && flags % 2 == 1
    ensures ParseHeader(ConvertedStream(slot1, formats, reserved, flags, body, root))
         == Some(RealmHeader((ALL_ONES, slot1), formats, reserved, flags, 1, slot1, 0, false))
  {
    WrittenHeaderIsParsed((ALL_ONES, slot1), formats, reserved, flags, body + Footer(root));
  }

  lemma EndsOnCookie(front: seq<byte>, root: nat)
    ensures CookieEndsAt(front + Footer(root), |front + Footer(root)|)
  {
    var data, cookie := front + Footer(root), ToLittle(STREAMING_COOKIE, 8);
    assert data == front + ToLittle(root, 8) + cookie;
    assert data[|data| - 8..] == cookie;
  }

  lemma ConvertedStreamEndsOnCookie(slot1: nat, formats: (byte, byte), reserved: byte, flags: byte, body: seq<byte>,
                                    root: nat)
    ensures var data := ConvertedStream(slot1, formats, reserved, flags, body, root);
            |data| >= 40 && CookieEndsAt(data, |data|)
  {
    var header := HeaderBytes((ALL_ONES, slot1), formats, reserved, flags);
    Regrouped(header, body, Footer(root));
    EndsOnCookie(header + body, root);
  }

  /** On every such file whose slot 1 names an array the flip leaves a readable header and fails to swap the labels. */
  lemma ConvertedStreamDoesNotSwap(slot1: nat, formats: (byte, byte), reserved: byte, flags: byte, body: seq<byte>,
                                   root: nat)
    requires slot1 <= ALL_ONES && flags % 2 == 1
    requires slot1 in Candidates(ConvertedStream(slot1, formats, reserved, flags, body, root))
    ensures var data := ConvertedStream(slot1, formats, reserved, flags, body, root);
            && ParseHeader(data).Some? && ParseHeader(Flip(data)).Some?
            && FileArrays(Flip(data), ParseHeader(Flip(data)).value)
               != SwapAll(FileArrays(data, ParseHeader(data).value))
  {
    HeaderBeforeFlip(slot1, formats, reserved, flags, body, root);
    ConvertedStreamEndsOnCookie(slot1, formats, reserved, flags, body, root);
    FlipIsReadableExactlyWhen(ConvertedStream(slot1, formats, reserved, flags, body, root));
    AllOnesFlipSwapsExactlyWhen(ConvertedStream(slot1, formats, reserved, flags, body, root));
  }

  lemma ArrayAfterHeader(header: seq<byte>, after: seq<byte>)
    requires |header| == 24
    ensures 24 in Candidates(header + (ArrayBytes(0x10, 0, []) + after))
  {
    WrittenArrayIsFound(header, 0x10, 0, [], after);
    Regrouped(header, ArrayBytes(0x10, 0, []), after);
  }

  /** One such file: a single empty array right behind the header. */
  lemma FlipCanFailToSwap()
    ensures exists data :: && ParseHeader(data).Some? && ParseHeader(Flip(data)).Some?
                           && FileArrays(Flip(data), ParseHeader(Flip(data)).value)
                              != SwapAll(FileArrays(data, ParseHeader(data).value))
  {
    ArrayAfterHeader(HeaderBytes((ALL_ONES, 24), (10, 10), 0, 1), Footer(0));
    ConvertedStreamDoesNotSwap(24, (10, 10), 0, 1, ArrayBytes(0x10, 0, []), 0);
  }
}
