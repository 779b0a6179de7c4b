/** blockresults.py: the message payloads shown for a request and an image.
    Every payload has a fixed shape; only the request's fields and the image
    fill it in. */
module BlockResults {
  import opened Wrappers
  import opened Errors
  import opened Strings
  import opened Image

  /** A text object: its "type" ("mrkdwn" or "plain_text"), its "text" and, for
      button labels, its "emoji" flag. */
  datatype Text = Text(kind: string, text: string, emoji: Option<bool>)

  /** A button element ("type": "button"). */
  datatype Button = Button(text: Text, style: Option<string>, value: string, actionId: string)

  datatype Block =
    | Section(text: Text)
    | ImageBlock(imageUrl: string, altText: string)
    | Actions(blockId: string, elements: seq<Button>)

  /** The suffix dropped from the description before it is used as alt text. */
  const GIF_SUFFIX: string := " GIF"

  function LabelButton(caption: string, style: Option<string>, actionId: string): Button {
    Button(Text("plain_text", caption, Some(true)), style, caption, actionId)
  }

  /** A BlockResults object: four fields set once by the constructor. */
  datatype BlockResults = BlockResults(blockUid: string, image: GifObject, userId: string, queryStr: string)
  {
    /** __get_image: the image block; it fails when get_url does. */
    function ImageOf(): (r: Result<Block, Error>)
      ensures r.Success? <==> GetUrl(image).Success?
      ensures r.Failure? ==> r.error == GetUrl(image).error
      ensures r.Success? ==>
        && r.value.ImageBlock?
        && r.value.imageUrl == GetUrl(image).value
        && (EndsWith(image.contentDescription, GIF_SUFFIX) ==> r.value.altText + GIF_SUFFIX == image.contentDescription)
        && (!EndsWith(image.contentDescription, GIF_SUFFIX) ==> r.value.altText == image.contentDescription)
    {
      var description := RemoveSuffix(image.contentDescription, GIF_SUFFIX);
      match GetUrl(image)
      case Failure(e) => Failure(e)
      case Success(url) => Success(ImageBlock(url, description))
    }

    /** __get_user_posted_section: names the requester and repeats the command. */
    function UserPostedSection(): (b: Block)
      ensures b.Section? && b.text.kind == "mrkdwn" && b.text.emoji.None?
      ensures b.text.text == "<@" + userId + "> /tenor " + queryStr
    {
      Section(Text("mrkdwn", "<@" + userId + "> /tenor " + queryStr, None))
    }

    /** __get_action_buttons: Send, Next and Cancel, tagged with the block uid
        so that a click can be traced back to its request. */
    function ActionButtons(): (b: Block)
      ensures b.Actions? && b.blockId == blockUid && |b.elements| == 3
      ensures b.elements[0].actionId == "action_send" && b.elements[0].value == "Send"
      ensures b.elements[1].actionId == "action_next" && b.elements[1].value == "Next"
      ensures b.elements[2].actionId == "action_cancel" && b.elements[2].value == "Cancel"
      ensures forall i | 0 <= i < 3 ::
        && b.elements[i].text == Text("plain_text", b.elements[i].value, Some(true))
        && (b.elements[i].style.Some? <==> i == 0)
      ensures b.elements[0].style == Some("primary")
    {
      Actions(blockUid, [
        LabelButton("Send", Some("primary"), "action_send"),
        LabelButton("Next", None, "action_next"),
        LabelButton("Cancel", None, "action_cancel")
      ])
    }

    /** get_ephemeral_message: the image, then the buttons. */
    function EphemeralMessage(): (r: Result<seq<Block>, Error>)
      ensures r.Success? <==> GetUrl(image).Success?
      ensures r.Failure? ==> r.error == GetUrl(image).error
      ensures r.Success? ==>
        && |r.value| == 2
        && r.value[0].ImageBlock? && r.value[0] == ImageOf().value
        && r.value[1].Actions? && r.value[1] == ActionButtons() && r.value[1].blockId == blockUid
    {
      match ImageOf()
      case Failure(e) => Failure(e)
      case Success(img) => Success([img, ActionButtons()])
    }

    /** get_command_post_message: the requester line, then the image; no
        buttons. */
    function CommandPostMessage(): (r: Result<seq<Block>, Error>)
      ensures r.Success? <==> GetUrl(image).Success?
      ensures r.Failure? ==> r.error == GetUrl(image).error
      ensures r.Success? ==>
        && |r.value| == 2
        && r.value[0].Section? && r.value[0] == UserPostedSection()
        && r.value[1].ImageBlock? && r.value[1] == ImageOf().value
        && forall i | 0 <= i < |r.value| :: !r.value[i].Actions?
    {
      match ImageOf()
      case Failure(e) => Failure(e)
      case Success(img) => Success([UserPostedSection(), img])
    }
  }
}
