/**
 game-event-server/src/common/interceptors/message.interceptor.ts: what is done with a
 delivery once its handler has finished. The channel is a recording of the calls made on it;
 `faults` is how many of the next calls throw.
 */
module Interceptor {
  import opened Prelude
  import opened Requests

  /** Where a message was published: `message.fields`. */
  datatype Fields = Fields(exchange: string, routingKey: string)

  /**
   A delivery. `retries` is the `x-retry-count` header, zero when it is absent; `origin` holds
   the headers `x-original-exchange` and `x-original-routing-key`.
   */
  datatype Message = Message(id: nat, payload: Payload, retries: nat, fields: Fields, origin: Option<Fields>)

  /** A copy to be published again once its time has come. */
  datatype Delayed = Delayed(msg: Message, due: nat)

  datatype RetryPolicy = RetryPolicy(maxRetries: nat, retryDelay: nat)

  datatype Settlement = Acknowledge | RetryLater(copy: Delayed)

  /** The message published again: to the default exchange, under the same routing key. */
  function RetryCopy(m: Message, retryCount: nat): Message {
    m.(retries := retryCount, fields := Fields("", m.fields.routingKey), origin := Some(m.fields))
  }

  /** What becomes of a delivery whose handler failed at `now`. */
  function OnFailure(policy: RetryPolicy, m: Message, now: nat): Settlement {
    if m.retries < policy.maxRetries
    then RetryLater(Delayed(RetryCopy(m, m.retries + 1), now + policy.retryDelay * (m.retries + 1)))
    else Acknowledge
  }

  class Channel {
    var acked: seq<Message>
    var rejected: seq<Message>
    var timers: seq<Delayed>
    var published: seq<Message>
    var faults: nat

    constructor (faults: nat)
      ensures acked == [] && rejected == [] && timers == [] && published == [] && this.faults == faults
    {
      acked, rejected, timers, published := [], [], [], [];
      this.faults := faults;
    }

    /** False when the call throws. */
    method Ack(m: Message) returns (ok: bool)
      modifies this
      ensures ok == (old(faults) == 0)
      ensures acked == old(acked) + if ok then [m] else []
      ensures faults == if ok then 0 else old(faults) - 1
      ensures rejected == old(rejected) && timers == old(timers) && published == old(published)
    {
      ok := faults == 0;
      if ok {
        acked := acked + [m];
      } else {
        faults := faults - 1;
      }
    }

    method Reject(m: Message) returns (ok: bool)
      modifies this
      ensures ok == (old(faults) == 0)
      ensures rejected == old(rejected) + if ok then [m] else []
      ensures faults == if ok then 0 else old(faults) - 1
      ensures acked == old(acked) && timers == old(timers) && published == old(published)
    {
      ok := faults == 0;
      if ok {
        rejected := rejected + [m];
      } else {
        faults := faults - 1;
      }
    }

    method Publish(m: Message) returns (ok: bool)
      modifies this
      ensures ok == (old(faults) == 0)
      ensures published == old(published) + if ok then [m] else []
      ensures faults == if ok then 0 else old(faults) - 1
      ensures acked == old(acked) && rejected == old(rejected) && timers == old(timers)
    {
      ok := faults == 0;
      if ok {
        published := published + [m];
      } else {
        faults := faults - 1;
      }
    }
  }

  const ACK_RETRIES: nat := 2

  class MessageInterceptor {
    const noAck: bool
    const policy: RetryPolicy

    /**
     `noAckSetting` is the environment variable RABBIT_MQ_NO_ACK. It is used as it is read, a
     text, and every non-empty text counts as true: "false" switches acknowledging OFF.
     */
    constructor (noAckSetting: Option<string>, policy: RetryPolicy)
      ensures noAck <==> noAckSetting.Some? && noAckSetting.value != ""
      ensures noAckSetting == Some("false") ==> noAck
      ensures this.policy == policy
    {
      noAck := noAckSetting.Some? && noAckSetting.value != "";
      this.policy := policy;
    }

    /** Tries once and then up to `retries` times more, waiting in between. */
    method AcknowledgeMessage(channel: Channel, m: Message, retries: nat) returns (ok: bool, waited: nat)
      modifies channel
      ensures ok <==> old(channel.faults) <= retries
      ensures channel.acked == old(channel.acked) + if ok then [m] else []
      ensures channel.faults == if ok then 0 else old(channel.faults) - retries - 1
      ensures waited == policy.retryDelay * (if ok then old(channel.faults) else retries)
      ensures channel.rejected == old(channel.rejected) && channel.timers == old(channel.timers)
           && channel.published == old(channel.published)
      decreases retries
    {
      ok := channel.Ack(m);
      waited := 0;
      if !ok && retries > 0 {
        ok, waited := AcknowledgeMessage(channel, m, retries - 1);
        waited := waited + policy.retryDelay;
      }
    }

    /** Up to the wait: a reject that throws leaves the delivery unsettled and schedules nothing. */
    method RetryMessage(channel: Channel, m: Message, retryCount: nat, now: nat) returns (ok: bool)
      modifies channel
      ensures ok == (old(channel.faults) == 0)
      ensures channel.rejected == old(channel.rejected) + if ok then [m] else []
      ensures channel.timers == old(channel.timers)
           + if ok then [Delayed(RetryCopy(m, retryCount), now + policy.retryDelay * retryCount)] else []
      ensures channel.faults == if ok then 0 else old(channel.faults) - 1
      ensures channel.acked == old(channel.acked) && channel.published == old(channel.published)
    {
      ok := channel.Reject(m);
      if !ok {
        return;
      }
      var headers := Some(m.fields);
      var copy := m.(retries := retryCount, origin := headers, fields := Fields("", m.fields.routingKey));
      channel.timers := channel.timers + [Delayed(copy, now + policy.retryDelay * retryCount)];
    }

    /** After the wait: a publish that throws loses the copy, and the delivery is rejected already. */
    method ResumeRetry(channel: Channel, i: nat) returns (ok: bool)
      requires i < |channel.timers|
      modifies channel
      ensures ok == (old(channel.faults) == 0)
      ensures channel.published == old(channel.published) + if ok then [old(channel.timers)[i].msg] else []
      ensures channel.timers == RemoveAt(old(channel.timers), i)
      ensures channel.faults == if ok then 0 else old(channel.faults) - 1
      ensures channel.acked == old(channel.acked) && channel.rejected == old(channel.rejected)
    {
      var copy := channel.timers[i].msg;
      channel.timers := RemoveAt(channel.timers, i);
      ok := channel.Publish(copy);
    }

    /** The handler's result arrives (`failed` false) or its error (`failed` true). */
    method Intercept(channel: Channel, m: Message, failed: bool, now: nat)
      modifies channel
      // a failed one with retries left is rejected and rescheduled, counted once more
      ensures !noAck && failed && OnFailure(policy, m, now).RetryLater? ==>
                && channel.acked == old(channel.acked)
                && channel.rejected == old(channel.rejected) + (if old(channel.faults) == 0 then [m] else [])
                && channel.timers == old(channel.timers)
                   + (if old(channel.faults) == 0 then [OnFailure(policy, m, now).copy] else [])
      // everything else is acknowledged, if the channel lets it
      ensures !noAck && (!failed || OnFailure(policy, m, now).Acknowledge?) ==>
                && channel.acked == old(channel.acked) + (if old(channel.faults) <= ACK_RETRIES then [m] else [])
                && channel.rejected == old(channel.rejected) && channel.timers == old(channel.timers)
      // so, unless acknowledging is off, a channel that does not fail too often settles it exactly once
      ensures !noAck && old(channel.faults) <= (if failed && OnFailure(policy, m, now).RetryLater? then 0 else ACK_RETRIES) ==>
                multiset(channel.acked) + multiset(channel.rejected)
                == multiset(old(channel.acked)) + multiset(old(channel.rejected)) + multiset{m}
      ensures noAck ==> channel.acked == old(channel.acked) && channel.rejected == old(channel.rejected)
                        && channel.timers == old(channel.timers) && channel.faults == old(channel.faults)
      ensures channel.published == old(channel.published)
    {
      if noAck {
        return;
      }
      if failed && m.retries < policy.maxRetries {
        var ok := RetryMessage(channel, m, m.retries + 1, now);
      } else {
        var ok, waited := AcknowledgeMessage(channel, m, ACK_RETRIES);
      }
    }
  }
}
