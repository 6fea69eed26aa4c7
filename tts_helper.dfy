// TTSHelper: the wrapper around the platform speech engine. The engine is
// reduced to what the helper relies on: a FIFO queue of utterances that are
// played in order, and a speech rate. Every operation of the helper is a
// no-op until the engine has reported a successful initialisation.
module Speech {
  import opened Sentences
  import opened Chunking

  /** TextToSpeech.SUCCESS, the status `onInit` receives when the engine is ready. */
  const Success: int := 0

  /** The chunk limit `speak` passes to splitTextIntoChunks. */
  const SpeakChunkSize: int := 3900

  /** The platform speech engine, seen as a queue of pending utterances and a rate. */
  class Engine {
    var queue: seq<string>
    var rate: real

    constructor (defaultRate: real)
      ensures queue == [] && rate == defaultRate
    {
      queue := [];
      rate := defaultRate;
    }

    /** `speak(utterance, QUEUE_ADD, ...)`: play after everything already queued. */
    method SpeakQueued(utterance: string)
      modifies this
      ensures queue == old(queue) + [utterance] && rate == old(rate)
    {
      queue := queue + [utterance];
    }

    /** `stop()`: drop the utterance being played and everything queued. */
    method Stop()
      modifies this
      ensures queue == [] && rate == old(rate)
    {
      queue := [];
    }

    method SetSpeechRate(r: real)
      modifies this
      ensures rate == r && queue == old(queue)
    {
      rate := r;
    }
  }

  class TtsHelper {
    const tts: Engine
    var isInitialized: bool

    /** The engine is created with the helper; initialisation is reported later, through OnInit. */
    constructor (engineDefaultRate: real)
      ensures fresh(tts) && !isInitialized
      ensures tts.queue == [] && tts.rate == engineDefaultRate
    {
      tts := new Engine(engineDefaultRate);
      isInitialized := false;
    }

    /**
     * The engine's initialisation callback. Only SUCCESS marks the helper
     * ready (and sets the rate to 1.0); any other status leaves everything
     * as it was, and a ready helper never becomes unready.
     */
    method OnInit(status: int)
      modifies this, tts
      ensures isInitialized == (old(isInitialized) || status == Success)
      ensures tts.queue == old(tts.queue)
      ensures tts.rate == if status == Success then 1.0 else old(tts.rate)
      ensures status != Success ==> unchanged(this) && unchanged(tts)
    {
      if status == Success {
        isInitialized := true;
        tts.SetSpeechRate(1.0);
      }
    }

    /**
     * Queue the chunks of `text`, in order, behind whatever is already
     * queued; before initialisation nothing happens. The completion callback
     * of the source is never invoked, so it is not part of the model.
     */
    method Speak(text: string)
      modifies tts
      ensures isInitialized ==>
        tts.queue == old(tts.queue) + Chunks(SplitAfterDots(text), SpeakChunkSize)
      ensures tts.rate == old(tts.rate)
      ensures !isInitialized ==> unchanged(tts)
    {
      if isInitialized {
        var sentences := SplitTextIntoChunks(text, SpeakChunkSize);
        EnqueueAll(sentences);
      }
    }

    /** The `for` loop of `speak`: each chunk is queued with QUEUE_ADD, in order. */
    method EnqueueAll(utterances: seq<string>)
      modifies tts
      ensures tts.queue == old(tts.queue) + utterances
      ensures tts.rate == old(tts.rate)
    {
      for i := 0 to |utterances|
        invariant tts.queue == old(tts.queue) + utterances[..i]
        invariant tts.rate == old(tts.rate)
      {
        tts.SpeakQueued(utterances[i]);
        assert utterances[..i + 1] == utterances[..i] + [utterances[i]];
      }
      assert utterances[..|utterances|] == utterances;
    }

    /** Stop playback and empty the queue; before initialisation nothing happens. */
    method StopSpeaking()
      modifies tts
      ensures tts.queue == if isInitialized then [] else old(tts.queue)
      ensures tts.rate == old(tts.rate)
    {
      if isInitialized {
        tts.Stop();
      }
    }

    /** Set the rate for what is played next; before initialisation nothing happens. */
    method SetSpeechRate(rate: real)
      modifies tts
      ensures tts.rate == if isInitialized then rate else old(tts.rate)
      ensures tts.queue == old(tts.queue)
    {
      if isInitialized {
        tts.SetSpeechRate(rate);
      }
    }
  }
}
