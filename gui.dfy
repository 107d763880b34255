/** The decision logic of the two button handlers of the window: "Check URL"
    and "Download".

    The widgets themselves are not modelled: what the URL, folder and file
    name fields hold and which mode radio button is selected at the moment
    of the click are parameters; what a handler writes back (the file name
    field, the validation label, the state of the buttons and of the
    "Transcription" radio button, the dialog shown) is state of `App`. */
module Gui {
  import opened Common
  import opened Downloader
  import Retry

  /** The operation a mode selects. */
  datatype Operation = VideoDownload | AudioDownload | Transcription(excludeCc: bool)

  /** The validation label: empty, green with the shown title and duration,
      or red with the probe's message. */
  datatype Label = Blank | ValidLabel(title: string, duration: int) | ErrorLabel(message: CheckMessage)

  /** The message boxes `download` can show. */
  datatype Dialog = InvalidUrl(message: CheckMessage) | DownloadComplete | DownloadError(text: string)

  /** What the handlers do, in order: state changes of both buttons, the
      probe and its verdict, the operation run. */
  datatype Event = ButtonsEnabled(on: bool) | Validated(ok: bool) | Performed(job: Job)

  const TitleWidth := 50
  const Ellipsis := "..."

  /** The title as the validation label shows it: titles longer than 50 characters are
      cut to their first 47 followed by "...", so the shown text never
      exceeds 50 characters. */
  function DisplayTitle(t: string): (r: string)
    ensures |r| <= TitleWidth
    ensures |t| <= TitleWidth ==> r == t
    ensures |t| > TitleWidth ==> |r| == TitleWidth && r[..47] == t[..47] && r[47..] == Ellipsis
  {
    if |t| <= TitleWidth then t else t[..47] + Ellipsis
  }

  /** The output file name: what was typed, or else the downloader's title. */
  function ChooseFilename(entered: string, title: string): (r: string)
    ensures entered != [] ==> r == entered
    ensures entered == [] ==> r == title
    ensures r == [] <==> entered == [] && title == []
  {
    if entered != [] then entered else title
  }

  /** The dispatch of `download`: "video" and "audio" pick their download;
      every other mode transcribes, with closed captions excluded unless the
      mode is exactly "transcription". */
  function ModeOperation(mode: string): Operation {
    if mode == "video" then VideoDownload
    else if mode == "audio" then AudioDownload
    else Transcription(mode != "transcription")
  }

  /** The job run for `mode` on metadata `m`, URL `url` and output `out`. */
  function Perform(m: Metadata, url: string, out: Output, mode: string, remote: nat -> Retry.Outcome): Job {
    match ModeOperation(mode)
    case VideoDownload => VideoJob(url, out, remote)
    case AudioDownload => AudioJob(url, out, remote)
    case Transcription(excludeCc) => TranscriptionJob(m, url, out, excludeCc, remote)
  }

  /** The message box after an operation: success iff the download returned. */
  function DialogFor(job: Job): Dialog {
    match job.run.result
    case Done => DownloadComplete
    case Raised(text) => DownloadError(text)
  }

  /** The four radio button values and what each runs. */
  lemma ModeOperations()
    ensures ModeOperation("video") == VideoDownload
    ensures ModeOperation("audio") == AudioDownload
    ensures ModeOperation("transcription") == Transcription(false)
    ensures ModeOperation("audio_transcription") == Transcription(true)
  {
  }

  /** "Audio+Transcription" always downloads the audio and, once it is
      there, runs speech recognition, whether or not captions exist. */
  lemma AudioTranscriptionUsesSpeech(m: Metadata, url: string, out: Output, remote: nat -> Retry.Outcome)
    ensures var j := Perform(m, url, out, "audio_transcription", remote);
            j.options == AudioOptions(out) && (j.whisperLanguage.Some? <==> j.run.result.Done?)
  {
  }

  /** "Transcription" fetches captions exactly when the video has some. */
  lemma TranscriptionUsesCaptionsWhenPresent(m: Metadata, url: string, out: Output, remote: nat -> Retry.Outcome)
    ensures var j := Perform(m, url, out, "transcription", remote);
            j.options.CaptionOptions? <==> m.hasCc
  {
  }

  /** Every operation of every mode downloads through the retry loop with the
      default limits, and the message box reports success iff that run
      returned; a run that gave up reports the error it raised. */
  lemma PerformRetriesAndReports(m: Metadata, url: string, out: Output, mode: string, remote: nat -> Retry.Outcome)
    ensures var j := Perform(m, url, out, mode, remote);
      && j.url == url
      && j.run == Retry.Retry(remote, Retry.DefaultMaxAttempts, Retry.DefaultBaseWait, Retry.DefaultMaxWait)
      && (DialogFor(j) == DownloadComplete <==> j.run.result.Done?)
      && (j.run.result.Raised? ==> DialogFor(j) == DownloadError(j.run.result.text))
  {
  }

  class App {
    const downloader: Downloader
    var checkEnabled: bool
    var downloadEnabled: bool
    var transcriptionEnabled: bool
    var filenameField: string
    var validation: Label
    var dialog: Option<Dialog>
    ghost var log: seq<Event>

    ghost predicate Valid()
      reads this, downloader
    {
      downloader.Valid()
    }

    /** The window as it opens, around a downloader built with no arguments. */
    constructor ()
      ensures Valid() && fresh(downloader)
      ensures downloader.url == "" && downloader.folderPath == "" && downloader.filename == ""
      ensures downloader.Meta() == Metadata("", 0, [], [], [], false) && downloader.extractions == []
      ensures checkEnabled && downloadEnabled && transcriptionEnabled
      ensures filenameField == "" && validation == Blank && dialog == None && log == []
    {
      downloader := new Downloader("", "", "");
      checkEnabled, downloadEnabled, transcriptionEnabled := true, true, true;
      filenameField, validation, dialog := "", Blank, None;
      log := [];
    }

    method SetButtons(on: bool)
      modifies this
      ensures checkEnabled == on && downloadEnabled == on
      ensures log == old(log) + [ButtonsEnabled(on)]
      ensures transcriptionEnabled == old(transcriptionEnabled) && filenameField == old(filenameField)
      ensures validation == old(validation) && dialog == old(dialog)
    {
      checkEnabled := on;
      downloadEnabled := on;
      log := log + [ButtonsEnabled(on)];
    }

    /** The "Check URL" handler: both buttons are disabled while the stripped
        URL is probed and enabled again afterwards. On success the file name
        field gets the title, the validation label shows the shortened title and the
        duration, and the "Transcription" button is enabled iff captions
        exist; on failure the validation label shows the message and nothing else
        changes. */
    method CheckUrlClicked(urlText: string, probe: Option<Info>)
      requires Valid()
      modifies this, downloader
      ensures Valid()
      ensures var url := Strip(urlText);
        && downloader.url == url
        && downloader.Meta() == Probed(url, probe, old(downloader.Meta()))
        && log == old(log) + [ButtonsEnabled(false), Validated(ProbeSucceeds(url, probe)), ButtonsEnabled(true)]
        && checkEnabled && downloadEnabled && dialog == old(dialog)
        && (ProbeSucceeds(url, probe) ==>
              && filenameField == downloader.title
              && validation == ValidLabel(DisplayTitle(downloader.title), downloader.duration)
              && transcriptionEnabled == downloader.hasCc)
        && (!ProbeSucceeds(url, probe) ==>
              && filenameField == old(filenameField)
              && validation == ErrorLabel(ProbeMessage(url, probe))
              && transcriptionEnabled == old(transcriptionEnabled))
      ensures downloader.folderPath == old(downloader.folderPath) && downloader.filename == old(downloader.filename)
      ensures downloader.extractions ==
                if HasScheme(downloader.url) then old(downloader.extractions) + [downloader.url]
                else old(downloader.extractions)
    {
      SetButtons(false);
      downloader.url := Strip(urlText);
      var ok, message := downloader.CheckUrl(probe);
      log := log + [Validated(ok)];
      if ok {
        filenameField := downloader.title;
        validation := ValidLabel(DisplayTitle(downloader.title), downloader.duration);
        transcriptionEnabled := downloader.hasCc;
      } else {
        validation := ErrorLabel(message);
      }
      SetButtons(true);
    }

    /** The body of the `try` block of `download`: the dispatch on the mode. */
    method RunMode(mode: string, remote: nat -> Retry.Outcome) returns (job: Job)
      ensures job == Perform(downloader.Meta(), downloader.url, downloader.Out(), mode, remote)
    {
      if mode == "video" {
        job := downloader.DownloadVideo(remote);
      } else if mode == "audio" {
        job := downloader.DownloadAudio(remote);
      } else {
        job := downloader.TranscribeAudio(mode != "transcription", remote);
      }
    }

    /** The branch of `download` after a successful probe: both buttons are
        disabled, the mode's operation runs, its outcome is shown, and the
        buttons are enabled again whether or not it raised. */
    method Launch(mode: string, remote: nat -> Retry.Outcome)
      modifies this
      ensures var job := Perform(downloader.Meta(), downloader.url, downloader.Out(), mode, remote);
        && log == old(log) + [ButtonsEnabled(false), Performed(job), ButtonsEnabled(true)]
        && dialog == Some(DialogFor(job))
      ensures checkEnabled && downloadEnabled
      ensures validation == old(validation) && filenameField == old(filenameField)
      ensures transcriptionEnabled == old(transcriptionEnabled)
    {
      SetButtons(false);
      var job := RunMode(mode, remote);
      log := log + [Performed(job)];
      dialog := Some(if job.run.result.Done? then DownloadComplete else DownloadError(job.run.result.text));
      SetButtons(true);
    }

    /** The start of `download`: the stripped fields go into the downloader,
        an empty file name falling back to the title it holds. */
    method ReadFields(urlText: string, folderText: string, filenameText: string)
      requires Valid()
      modifies downloader
      ensures Valid()
      ensures downloader.url == Strip(urlText) && downloader.folderPath == Strip(folderText)
      ensures downloader.filename == ChooseFilename(Strip(filenameText), old(downloader.title))
      ensures downloader.Meta() == old(downloader.Meta())
      ensures downloader.extractions == old(downloader.extractions)
    {
      downloader.url := Strip(urlText);
      downloader.folderPath := Strip(folderText);
      downloader.filename := Strip(filenameText);
      downloader.filename := if downloader.filename != [] then downloader.filename else downloader.title;
    }

    /** The rest of `download` once the fields are read: the URL is probed
        again; a failed probe shows its message and leaves the buttons as
        they were, a successful one launches the mode's operation on the
        fresh metadata. */
    method Revalidate(mode: string, probe: Option<Info>, remote: nat -> Retry.Outcome)
      requires Valid()
      modifies this, downloader
      ensures Valid()
      ensures downloader.url == old(downloader.url) && downloader.folderPath == old(downloader.folderPath)
      ensures downloader.filename == old(downloader.filename)
      ensures downloader.Meta() == Probed(downloader.url, probe, old(downloader.Meta()))
      ensures downloader.extractions ==
                if HasScheme(downloader.url) then old(downloader.extractions) + [downloader.url]
                else old(downloader.extractions)
      ensures !ProbeSucceeds(downloader.url, probe) ==>
                && log == old(log) + [Validated(false)]
                && dialog == Some(InvalidUrl(ProbeMessage(downloader.url, probe)))
                && checkEnabled == old(checkEnabled) && downloadEnabled == old(downloadEnabled)
      ensures ProbeSucceeds(downloader.url, probe) ==>
                var job := Perform(downloader.Meta(), downloader.url, downloader.Out(), mode, remote);
                && log == old(log) + [Validated(true), ButtonsEnabled(false), Performed(job), ButtonsEnabled(true)]
                && dialog == Some(DialogFor(job))
                && checkEnabled && downloadEnabled
      ensures validation == old(validation) && filenameField == old(filenameField)
      ensures transcriptionEnabled == old(transcriptionEnabled)
    {
      var ok, message := downloader.CheckUrl(probe);
      log := log + [Validated(ok)];
      if !ok {
        dialog := Some(InvalidUrl(message));
      } else {
        Launch(mode, remote);
      }
    }

    /** The "Download" handler. The stripped fields go into the downloader,
        the file name falling back to the title the downloader holds before
        the URL is probed again. A failed probe shows its message and leaves
        the buttons as they were; otherwise both buttons are disabled, the
        mode's operation runs on the fresh metadata, its outcome is shown and
        the buttons are enabled again. */
    method DownloadClicked(urlText: string, folderText: string, filenameText: string, mode: string,
                           probe: Option<Info>, remote: nat -> Retry.Outcome)
      requires Valid()
      modifies this, downloader
      ensures Valid()
      ensures downloader.url == Strip(urlText) && downloader.folderPath == Strip(folderText)
      ensures downloader.filename == ChooseFilename(Strip(filenameText), old(downloader.title))
      ensures downloader.Meta() == Probed(downloader.url, probe, old(downloader.Meta()))
      ensures downloader.extractions ==
                if HasScheme(downloader.url) then old(downloader.extractions) + [downloader.url]
                else old(downloader.extractions)
      ensures !ProbeSucceeds(downloader.url, probe) ==>
                && log == old(log) + [Validated(false)]
                && dialog == Some(InvalidUrl(ProbeMessage(downloader.url, probe)))
                && checkEnabled == old(checkEnabled) && downloadEnabled == old(downloadEnabled)
      ensures ProbeSucceeds(downloader.url, probe) ==>
                var job := Perform(downloader.Meta(), downloader.url, downloader.Out(), mode, remote);
                && log == old(log) + [Validated(true), ButtonsEnabled(false), Performed(job), ButtonsEnabled(true)]
                && dialog == Some(DialogFor(job))
                && checkEnabled && downloadEnabled
      ensures validation == old(validation) && filenameField == old(filenameField)
      ensures transcriptionEnabled == old(transcriptionEnabled)
    {
      ReadFields(urlText, folderText, filenameText);
      Revalidate(mode, probe, remote);
    }
  }
}
