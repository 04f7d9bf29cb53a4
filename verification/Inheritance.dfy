/** Whose schedule settings decide: a layer's own columns, and the rotation's where the layer leaves one unset. */
module Inheritance {
  import opened Clock
  import opened RotationSchedule
  import opened OnCall
  import opened Events
  import opened LayerSweep
  import opened Calendar

  /** Both forms give the same answer for two layers of two rotations at an instant. */
  ghost predicate SameAnswers(rot: Rotation, layer: Layer, rot': Rotation, layer': Layer, t: int) {
    && LayerActiveNow(layer, LayerSettings(rot, layer), t) == LayerActiveNow(layer', LayerSettings(rot', layer'), t)
    && ScheduledUserForLayer(layer, LayerSettings(rot, layer), t) == ScheduledUserForLayer(layer', LayerSettings(rot', layer'), t)
    && LayerIdentAt(rot, layer, t) == LayerIdentAt(rot', layer', t)
  }

  /** Two sets of defaults agree on every column the layer leaves unset. */
  ghost predicate AgreeWhereUnset(own: Settings, d: Settings, d': Settings) {
    && (own.startAt.Some? || d.startAt == d'.startAt)
    && (own.durationSeconds.Some? || d.durationSeconds == d'.durationSeconds)
    && (own.rotationType.Some? || d.rotationType == d'.rotationType)
    && (own.intervalUnit.Some? || d.intervalUnit == d'.intervalUnit)
    && (own.intervalValue.Some? || d.intervalValue == d'.intervalValue)
    && (own.zone.Some? || d.zone == d'.zone)
  }

  /** `own'` is `own` with the rotation's value written into some of its unset columns. */
  ghost predicate FillsFrom(own: Settings, d: Settings, own': Settings) {
    && (own'.startAt == own.startAt || (own.startAt.None? && own'.startAt == d.startAt))
    && (own'.durationSeconds == own.durationSeconds || (own.durationSeconds.None? && own'.durationSeconds == d.durationSeconds))
    && (own'.rotationType == own.rotationType || (own.rotationType.None? && own'.rotationType == d.rotationType))
    && (own'.intervalUnit == own.intervalUnit || (own.intervalUnit.None? && own'.intervalUnit == d.intervalUnit))
    && (own'.intervalValue == own.intervalValue || (own.intervalValue.None? && own'.intervalValue == d.intervalValue))
    && (own'.zone == own.zone || (own.zone.None? && own'.zone == d.zone))
  }

  predicate AllSet(own: Settings) {
    && own.startAt.Some? && own.durationSeconds.Some? && own.rotationType.Some?
    && own.intervalUnit.Some? && own.intervalValue.Some? && own.zone.Some?
  }

  /** A rotation's value for a column the layer sets itself never matters. */
  lemma OwnColumnsWin(rot: Rotation, layer: Layer, defaults: Settings, t: int)
    requires AgreeWhereUnset(layer.own, rot.defaults, defaults)
    ensures SameAnswers(rot, layer, rot.(defaults := defaults), layer, t)
  {
  }

  /** Leaving a column unset is the same as copying the rotation's value into it. */
  lemma UnsetColumnsInherit(rot: Rotation, layer: Layer, own: Settings, t: int)
    requires FillsFrom(layer.own, rot.defaults, own)
    ensures SameAnswers(rot, layer, rot, layer.(own := own), t)
  {
  }

  /** A layer that sets every column runs on exactly those. */
  lemma OwnScheduleDecides(rot: Rotation, layer: Layer, t: int)
    requires AllSet(layer.own) && InUse(layer) && layer.restrictions == []
    ensures ScheduledUserForLayer(layer, LayerSettings(rot, layer), t) == TurnOf(OnDutyMembersAt(layer.members, t), SlotIndex(layer.own, t))
    ensures LayerIdentAt(rot, layer, t) == ShiftAt(layer.own, layer.id, layer.members, t)
  {
  }

  lemma {:induction false} SameLayersSameChoice(layers: seq<Layer>, rot: Rotation, layers': seq<Layer>, rot': Rotation, t: int)
    requires |layers| == |layers'| && forall i :: 0 <= i < |layers| ==> SameAnswers(rot, layers[i], rot', layers'[i], t)
    ensures LayersIdentAt(layers, rot, t) == LayersIdentAt(layers', rot', t)
    ensures var l, l' := ActiveLayer(layers, rot, t), ActiveLayer(layers', rot', t);
            && l.Some? == l'.Some?
            && (l.Some? ==> ScheduledUserForLayer(l.value, LayerSettings(rot, l.value), t)
                            == ScheduledUserForLayer(l'.value, LayerSettings(rot', l'.value), t))
  {
    if layers != [] {
      assert SameAnswers(rot, layers[0], rot', layers'[0], t);
      SameLayersSameChoice(layers[1..], rot, layers'[1..], rot', t);
    }
  }

  /** When every layer sets its own columns, the rotation's schedule settings change neither the point query
      nor the calendar. */
  lemma DefaultsOnlyFillGaps(rot: Rotation, defaults: Settings, t: int)
    requires forall i :: 0 <= i < |rot.layers| ==> AgreeWhereUnset(rot.layers[i].own, rot.defaults, defaults)
    ensures CurrentUser(rot.(defaults := defaults), t) == CurrentUser(rot, t)
    ensures CalendarIdentAt(rot.(defaults := defaults), t) == CalendarIdentAt(rot, t)
  {
    forall i | 0 <= i < |rot.layers|
      ensures SameAnswers(rot, rot.layers[i], rot.(defaults := defaults), rot.layers[i], t)
    {
      OwnColumnsWin(rot, rot.layers[i], defaults, t);
    }
    SameLayersSameChoice(rot.layers, rot, rot.layers, rot.(defaults := defaults), t);
  }

  /** Copying the rotation's values into unset columns of its layers changes neither. */
  lemma CopyingDefaultsChangesNothing(rot: Rotation, layers: seq<Layer>, t: int)
    requires |layers| == |rot.layers|
    requires forall i :: 0 <= i < |layers| ==>
               FillsFrom(rot.layers[i].own, rot.defaults, layers[i].own) && layers[i] == rot.layers[i].(own := layers[i].own)
    ensures CurrentUser(rot.(layers := layers), t) == CurrentUser(rot, t)
    ensures CalendarIdentAt(rot.(layers := layers), t) == CalendarIdentAt(rot, t)
  {
    forall i | 0 <= i < |layers|
      ensures SameAnswers(rot, rot.layers[i], rot.(layers := layers), layers[i], t)
    {
      UnsetColumnsInherit(rot, rot.layers[i], layers[i].own, t);
    }
    SameLayersSameChoice(rot.layers, rot, layers, rot.(layers := layers), t);
  }
}
