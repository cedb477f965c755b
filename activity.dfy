/** The MagicPix activity as a small state machine: three nullable fields
    (the picked image, the last audio bytes, the last regenerated image)
    and the button and picker handlers that read and set them. Views,
    intents, permissions and streams are left out; what a handler shows or
    starts is returned as a list of effects. */
module Activity {
  import opened Outcomes
  import opened Bytes
  import opened Pixels
  import opened Codec

  /** The toast messages the handlers show. */
  datatype Message =
    | ImageConverted        // "image converted"
    | SelectImageFirst      // "select an image first"
    | InvalidAudioData      // "Invalid audio data for image regeneration."
    | ImageRegenerated      // "image regenerated"
    | NoAudioData           // "no audio data"
    | RegenerateImageFirst  // "regenerate the image first"
    | AudioSaved            // "Audio saved to: " and the file's address
    | ImageSaved            // "Image saved to: " and the file's address

  /** What a handler does besides changing the fields. */
  datatype Effect =
    | Show(message: Message)
    | LaunchSaveAudio       // the create-document picker for "output.wav"
    | LaunchSaveImage       // the create-document picker for "output" (PNG)

  class MainActivity {
    var selectedImage: Bitmap?
    var audioData: array?<byte>
    var regeneratedImage: Bitmap?

    /** Every bitmap the activity holds is well formed, and a regenerated
        one is fully opaque, because only the decoder produces it. */
    ghost predicate Valid()
      reads this, if regeneratedImage != null then {regeneratedImage.pixels} else {}
    {
      && (selectedImage != null ==> selectedImage.Valid())
      && (regeneratedImage != null ==>
            && regeneratedImage.Valid()
            && forall i :: 0 <= i < regeneratedImage.pixels.Length ==> IsOpaque(regeneratedImage.pixels[i]))
    }

    /** A fresh activity holds nothing. */
    constructor ()
      ensures Valid()
      ensures selectedImage == null && audioData == null && regeneratedImage == null
    {
      selectedImage, audioData, regeneratedImage := null, null, null;
    }

    /** The image picker's result: whatever `BitmapFactory.decodeStream`
        made of the picked file, null when it could not decode it. */
    method OnImagePicked(image: Bitmap?)
      requires Valid() && (image != null ==> image.Valid())
      modifies this
      ensures Valid()
      ensures selectedImage == image
      ensures audioData == old(audioData) && regeneratedImage == old(regeneratedImage)
    {
      selectedImage := image;
    }

    /** The convert button: encodes the picked image, or asks for one. */
    method OnConvertToAudio() returns (effects: seq<Effect>)
      requires Valid()
      requires selectedImage != null ==> Encodable(selectedImage.Snapshot())
      modifies this
      ensures Valid()
      ensures selectedImage == old(selectedImage) && regeneratedImage == old(regeneratedImage)
      ensures old(selectedImage) == null ==> audioData == old(audioData) && effects == [Show(SelectImageFirst)]
      ensures old(selectedImage) != null ==>
        && audioData != null
        && audioData[..] == Encode(selectedImage.Snapshot())
        && effects == [Show(ImageConverted)]
    {
      if selectedImage != null {
        audioData := ConvertImageToAudio(selectedImage);
        effects := [Show(ImageConverted)];
      } else {
        effects := [Show(SelectImageFirst)];
      }
    }

    /** The audio picker's result: the file's bytes are kept and decoded.
        Too short an input makes the decoder return null, after its own
        message, and the handler then still reports success; any other
        decoding failure is an unchecked exception the handler does not
        catch, returned here as the error. */
    method OnAudioLoaded(data: array<byte>) returns (outcome: Result<seq<Effect>, DecodeError>)
      requires Valid()
      modifies this
      ensures Valid()
      ensures audioData == data && selectedImage == old(selectedImage)
      ensures Decode(data[..]).Ok? ==>
        && regeneratedImage != null
        && fresh(regeneratedImage)
        && regeneratedImage.Snapshot() == Decode(data[..]).value
        && outcome == Ok([Show(ImageRegenerated)])
      ensures Decode(data[..]) == Err(TooShort) ==>
        regeneratedImage == null && outcome == Ok([Show(InvalidAudioData), Show(ImageRegenerated)])
      ensures Decode(data[..]).Err? && Decode(data[..]) != Err(TooShort) ==>
        regeneratedImage == old(regeneratedImage) && outcome == Err(Decode(data[..]).error)
    {
      audioData := data;
      var result := RegenerateImageFromAudio(data);
      match result {
        case Ok(image) =>
          regeneratedImage := image;
          outcome := Ok([Show(ImageRegenerated)]);
        case Err(TooShort) =>
          regeneratedImage := null;
          outcome := Ok([Show(InvalidAudioData), Show(ImageRegenerated)]);
        case Err(e) =>
          outcome := Err(e);
      }
    }

    /** The save-audio button: opens the save dialog only when there are
        audio bytes to save. */
    method OnSaveAudio() returns (effects: seq<Effect>)
      ensures LaunchSaveAudio in effects <==> audioData != null
      ensures audioData == null ==> effects == [Show(NoAudioData)]
      ensures |effects| == 1
    {
      if audioData != null {
        effects := [LaunchSaveAudio];
      } else {
        effects := [Show(NoAudioData)];
      }
    }

    /** The save dialog's result, which the activity receives only when the
        dialog ended with RESULT_OK and returned an intent; a cancelled
        dialog runs nothing. `uriPresent` says whether that intent carries
        a file address. The bytes are written to the file when there is an
        address and there are bytes. */
    method OnAudioTargetChosen(uriPresent: bool) returns (written: Option<seq<byte>>, effects: seq<Effect>)
      ensures written.Some? <==> uriPresent && audioData != null
      ensures written.Some? ==> written.value == audioData[..] && effects == [Show(AudioSaved)]
      ensures written.None? ==> effects == [Show(NoAudioData)]
    {
      if uriPresent && audioData != null {
        written := Some(audioData[..]);
        effects := [Show(AudioSaved)];
      } else {
        written := None;
        effects := [Show(NoAudioData)];
      }
    }

    /** The save-image button: opens the save dialog only when there is a
        regenerated image to save. */
    method OnSaveImage() returns (effects: seq<Effect>)
      ensures LaunchSaveImage in effects <==> regeneratedImage != null
      ensures regeneratedImage == null ==> effects == [Show(RegenerateImageFirst)]
      ensures |effects| == 1
    {
      if regeneratedImage != null {
        effects := [LaunchSaveImage];
      } else {
        effects := [Show(RegenerateImageFirst)];
      }
    }

    /** The save dialog's result, received only when the dialog ended with
        RESULT_OK and returned an intent; `uriPresent` says whether that
        intent carries a file address. The image handed to the PNG
        compressor, when there is an address and a regenerated image; it is
        always fully opaque. */
    method OnImageTargetChosen(uriPresent: bool) returns (saved: Option<Image>, effects: seq<Effect>)
      requires Valid()
      ensures saved.Some? <==> uriPresent && regeneratedImage != null
      ensures saved.Some? ==> saved.value == regeneratedImage.Snapshot() && effects == [Show(ImageSaved)]
      ensures saved.Some? ==> forall i :: 0 <= i < |saved.value.pixels| ==> IsOpaque(saved.value.pixels[i])
      ensures saved.None? ==> effects == [Show(RegenerateImageFirst)]
    {
      if uriPresent && regeneratedImage != null {
        saved := Some(regeneratedImage.Snapshot());
        effects := [Show(ImageSaved)];
      } else {
        saved := None;
        effects := [Show(RegenerateImageFirst)];
      }
    }
  }
}
